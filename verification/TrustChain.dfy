/** What a trust-chain verdict means, and how verdicts change as the registry evolves. */
module TrustChain {
  import opened Evm
  import opened AccreditationRecords

  // ---------------------------------------------------------------------------------------
  // The verdict is the existence of a path to the owner
  // ---------------------------------------------------------------------------------------

  /** Exists, was never revoked and has not expired. */
  predicate Live(a: Accreditation, now: Uint256) {
    a.present && !a.revoked && !Expired(a.expiresAt, now)
  }

  /** The five edges of the hierarchy, written (parent, child). */
  const HIERARCHY: set<(Scope, Scope)> := {
    (MemberState, Ministry),
    (Ministry, Institution),
    (Institution, Department),
    (MemberState, BusinessRegistry),
    (BusinessRegistry, Enterprise)
  }

  /** `child` points to `parent`, whose subject issued it, along an edge of the hierarchy. */
  ghost predicate EndorsedBy(m: Records, child: Bytes32, parent: Bytes32) {
    var c, p := Get(m, child), Get(m, parent);
    && parent != ZERO_ID
    && c.parentAccreditationId == parent
    && p.subject == c.issuer
    && (p.scope, c.scope) in HIERARCHY
  }

  /** Issued by the owner at one of the two scopes that may stand without a parent. */
  ghost predicate Anchored(a: Accreditation, owner: Address) {
    a.parentAccreditationId == ZERO_ID && a.issuer == owner && a.scope in {MemberState, Ministry}
  }

  /** A nonempty run of live records, each endorsed by the next, the last one anchored at the owner. */
  ghost predicate TrustPath(m: Records, owner: Address, now: Uint256, path: seq<Bytes32>) {
    && path != []
    && (forall i | 0 <= i < |path| :: Live(Get(m, path[i]), now))
    && (forall i | 0 <= i < |path| - 1 :: EndorsedBy(m, path[i], path[i + 1]))
    && Anchored(Get(m, path[|path| - 1]), owner)
  }

  lemma {:induction false} ValidHasPath(m: Records, owner: Address, now: Uint256, id: Bytes32) returns (path: seq<Bytes32>)
    requires ValidateTrustChain(m, owner, now, id)
    ensures TrustPath(m, owner, now, path) && path[0] == id
    decreases Rank(Get(m, id).scope)
  {
    var parentId := Get(m, id).parentAccreditationId;
    if parentId == ZERO_ID {
      path := [id];
    } else {
      var rest := ValidHasPath(m, owner, now, parentId);
      path := [id] + rest;
      assert EndorsedBy(m, id, parentId);
      assert forall i | 0 <= i < |rest| :: path[i + 1] == rest[i];
      forall i | 0 <= i < |path| ensures Live(Get(m, path[i]), now) {
        if i > 0 { assert path[i] == rest[i - 1]; }
      }
      forall i | 0 <= i < |path| - 1 ensures EndorsedBy(m, path[i], path[i + 1]) {
        if i > 0 { assert EndorsedBy(m, rest[i - 1], rest[i]); }
      }
    }
  }

  /** The tail of a path is a path. */
  lemma PathTail(m: Records, owner: Address, now: Uint256, path: seq<Bytes32>)
    requires TrustPath(m, owner, now, path) && |path| > 1
    ensures TrustPath(m, owner, now, path[1..])
  {
    var rest := path[1..];
    forall i | 0 <= i < |rest| - 1 ensures EndorsedBy(m, rest[i], rest[i + 1]) {
      assert EndorsedBy(m, path[i + 1], path[i + 2]);
    }
  }

  /** A path makes its first record valid; it is no longer than the rank of that record allows. */
  lemma {:induction false} PathIsValid(m: Records, owner: Address, now: Uint256, path: seq<Bytes32>)
    requires TrustPath(m, owner, now, path)
    ensures ValidateTrustChain(m, owner, now, path[0])
    ensures |path| <= Rank(Get(m, path[0]).scope) + 1 <= 4
    decreases |path|
  {
    assert Live(Get(m, path[0]), now);
    if |path| > 1 {
      PathTail(m, owner, now, path);
      PathIsValid(m, owner, now, path[1..]);
      assert EndorsedBy(m, path[0], path[1]);
    }
  }

  /** A path is the whole parent walk of its first record. */
  lemma {:induction false} PathIsWalk(m: Records, owner: Address, now: Uint256, path: seq<Bytes32>, n: nat)
    requires TrustPath(m, owner, now, path) && path[0] != ZERO_ID && |path| <= n
    ensures ParentWalk(m, path[0], n) == path
    decreases |path|
  {
    if |path| > 1 {
      PathTail(m, owner, now, path);
      assert EndorsedBy(m, path[0], path[1]);
      PathIsWalk(m, owner, now, path[1..], n - 1);
      assert path == [path[0]] + path[1..];
    } else {
      assert path == [path[0]];
    }
  }

  /**
   * The verdict, exactly: some path of live, endorsed records leads from the identifier to the
   * owner; such a path has at most four records and is the parent walk itself.
   */
  lemma ValidIffTrustPath(m: Records, owner: Address, now: Uint256, id: Bytes32)
    ensures ValidateTrustChain(m, owner, now, id)
       <==> exists path :: TrustPath(m, owner, now, path) && path[0] == id
    ensures forall path | TrustPath(m, owner, now, path) && path[0] == id ::
              |path| <= 4 && (id != ZERO_ID ==> path == ParentWalk(m, id, 4))
  {
    if ValidateTrustChain(m, owner, now, id) {
      var path := ValidHasPath(m, owner, now, id);
    }
    forall path | TrustPath(m, owner, now, path) && path[0] == id
      ensures ValidateTrustChain(m, owner, now, id)
      ensures |path| <= 4 && (id != ZERO_ID ==> path == ParentWalk(m, id, 4))
    {
      PathIsValid(m, owner, now, path);
      if id != ZERO_ID { PathIsWalk(m, owner, now, path, 4); }
    }
  }

  /** Every record met on the way up from a valid one, however far, is itself live and valid. */
  lemma {:induction false} ValidWalkIsValid(m: Records, owner: Address, now: Uint256, id: Bytes32, n: nat, a: Bytes32)
    requires ValidateTrustChain(m, owner, now, id)
    requires a in ParentWalk(m, id, n)
    ensures ValidateTrustChain(m, owner, now, a) && Live(Get(m, a), now)
    decreases n
  {
    if a != id {
      ValidWalkIsValid(m, owner, now, Get(m, id).parentAccreditationId, n - 1, a);
    }
  }

  // ---------------------------------------------------------------------------------------
  // How the records may change
  // ---------------------------------------------------------------------------------------

  /** No record disappears or changes, except that it may become revoked. */
  ghost predicate Evolves(m: Records, m': Records) {
    forall id: Bytes32 | Get(m, id).present ::
      && Get(m', id).present
      && Get(m', id) == Get(m, id).(revoked := Get(m', id).revoked)
      && (Get(m, id).revoked ==> Get(m', id).revoked)
  }

  lemma EvolvesTransitive(m1: Records, m2: Records, m3: Records)
    requires Evolves(m1, m2) && Evolves(m2, m3)
    ensures Evolves(m1, m3)
  {
    forall id: Bytes32 | Get(m1, id).present
      ensures Get(m3, id).present && Get(m3, id) == Get(m1, id).(revoked := Get(m3, id).revoked)
      ensures Get(m1, id).revoked ==> Get(m3, id).revoked
    {
      assert Get(m2, id).present;
    }
  }

  /** Every record that is new was issued at `now` or later. */
  ghost predicate IssuedSince(m: Records, m': Records, now: Uint256) {
    forall id: Bytes32 | Get(m', id).present && !Get(m, id).present :: now <= Get(m', id).issuedAt
  }

  /** The record and its next `n` ancestors, as far as they go, are all stored. */
  predicate WalkStored(m: Records, id: Bytes32, n: nat)
    decreases n
  {
    var a := Get(m, id);
    a.present && (n > 0 && a.parentAccreditationId != ZERO_ID ==> WalkStored(m, a.parentAccreditationId, n - 1))
  }

  lemma {:induction false} ValidWalkStored(m: Records, owner: Address, now: Uint256, id: Bytes32, n: nat)
    requires ValidateTrustChain(m, owner, now, id)
    ensures WalkStored(m, id, n)
    decreases n
  {
    var a := Get(m, id);
    if n > 0 && a.parentAccreditationId != ZERO_ID {
      ValidWalkStored(m, owner, now, a.parentAccreditationId, n - 1);
    }
  }

  lemma {:induction false} WalkStoredEvolves(m: Records, m': Records, id: Bytes32, n: nat)
    requires Evolves(m, m') && WalkStored(m, id, n)
    ensures WalkStored(m', id, n)
    decreases n
  {
    var a := Get(m, id);
    if n > 0 && a.parentAccreditationId != ZERO_ID {
      WalkStoredEvolves(m, m', a.parentAccreditationId, n - 1);
    }
  }

  /** What is met on a walk stays on it, whatever is issued or revoked later. */
  lemma {:induction false} WalkPersists(m: Records, m': Records, id: Bytes32, n: nat, a: Bytes32)
    requires Evolves(m, m') && a in ParentWalk(m, id, n)
    ensures a in ParentWalk(m', id, n)
    decreases n
  {
    if a != id {
      assert Get(m, id).present;
      WalkPersists(m, m', Get(m, id).parentAccreditationId, n - 1, a);
    }
  }

  /** Once the record and the ancestors its scope allows for are stored, a later verdict implies the earlier one. */
  lemma {:induction false} StoredWalkOnlyLoses(
    m: Records, m': Records, owner: Address, now: Uint256, now': Uint256, id: Bytes32, n: nat
  )
    requires Evolves(m, m') && now <= now'
    requires WalkStored(m, id, n) && Rank(Get(m, id).scope) <= n
    requires ValidateTrustChain(m', owner, now', id)
    ensures ValidateTrustChain(m, owner, now, id)
    decreases n
  {
    var a := Get(m, id);
    var parentId := a.parentAccreditationId;
    assert Get(m', id) == a.(revoked := Get(m', id).revoked);
    if parentId != ZERO_ID {
      assert Get(m', parentId).present && HasEndorser(m', Get(m', id), Get(m', parentId).scope);
      assert n > 0 && WalkStored(m, parentId, n - 1);
      assert Get(m', parentId) == Get(m, parentId).(revoked := Get(m', parentId).revoked);
      StoredWalkOnlyLoses(m, m', owner, now, now', parentId, n - 1);
    }
  }

  /** A verdict lost between a first state, where it held, and a second one does not return in a third. */
  lemma LostVerdictStaysLost(
    m1: Records, m2: Records, m3: Records, owner: Address,
    now1: Uint256, now2: Uint256, now3: Uint256, id: Bytes32
  )
    requires Evolves(m1, m2) && Evolves(m2, m3) && now1 <= now2 <= now3
    requires ValidateTrustChain(m1, owner, now1, id) && !ValidateTrustChain(m2, owner, now2, id)
    ensures !ValidateTrustChain(m3, owner, now3, id)
  {
    ValidWalkStored(m1, owner, now1, id, 3);
    WalkStoredEvolves(m1, m2, id, 3);
    if ValidateTrustChain(m3, owner, now3, id) {
      StoredWalkOnlyLoses(m2, m3, owner, now2, now3, id, 3);
    }
  }

  /** The record, and the ancestors a verdict on it can look at. */
  function Lineage(m: Records, id: Bytes32, n: nat): (ids: seq<Bytes32>)
    ensures ids != [] && ids[0] == id
  {
    [id] + ParentWalk(m, Get(m, id).parentAccreditationId, n)
  }

  /** A verdict that held still holds later iff everything it looked at is still live. */
  lemma {:induction false} ValidLaterIff(
    m: Records, m': Records, owner: Address, now: Uint256, now': Uint256, id: Bytes32, n: nat
  )
    requires Evolves(m, m') && ValidateTrustChain(m, owner, now, id) && Rank(Get(m, id).scope) <= n
    ensures ValidateTrustChain(m', owner, now', id) <==> forall a | a in Lineage(m, id, n) :: Live(Get(m', a), now')
    decreases n
  {
    var parentId := Get(m, id).parentAccreditationId;
    assert Get(m', id) == Get(m, id).(revoked := Get(m', id).revoked);
    if parentId != ZERO_ID {
      assert Get(m', parentId) == Get(m, parentId).(revoked := Get(m', parentId).revoked);
      ValidLaterIff(m, m', owner, now, now', parentId, n - 1);
      assert Lineage(m, id, n) == [id] + Lineage(m, parentId, n - 1);
    } else {
      assert Lineage(m, id, n) == [id];
    }
  }

  /** Storing one more record leaves alone the verdict of every record whose walk was already stored. */
  lemma {:induction false} InsertKeepsVerdict(
    m: Records, owner: Address, now: Uint256, fresh': Bytes32, record: Accreditation, id: Bytes32, n: nat
  )
    requires record.present && !Get(m, fresh').present
    requires WalkStored(m, id, n) && Rank(Get(m, id).scope) <= n
    ensures ValidateTrustChain(m[fresh' := record], owner, now, id) == ValidateTrustChain(m, owner, now, id)
    decreases n
  {
    var m': Records := m[fresh' := record];
    var a := Get(m, id);
    var parentId := a.parentAccreditationId;
    assert Get(m', id) == a;
    if parentId != ZERO_ID && n > 0 {
      assert WalkStored(m, parentId, n - 1);
      assert Get(m', parentId) == Get(m, parentId);
      if Rank(Get(m, parentId).scope) < Rank(a.scope) {
        InsertKeepsVerdict(m, owner, now, fresh', record, parentId, n - 1);
      }
    }
  }

  // ---------------------------------------------------------------------------------------
  // Failures that can be repaired
  // ---------------------------------------------------------------------------------------

  /** Live, endorsed records lead from `id` up to a Ministry of the owner whose parent, `missing`, is not stored. */
  ghost predicate Dangling(m: Records, owner: Address, now: Uint256, id: Bytes32, missing: Bytes32)
    decreases Rank(Get(m, id).scope)
  {
    var a := Get(m, id);
    var parentId := a.parentAccreditationId;
    Live(a, now) &&
    if a.scope == Ministry then
      a.issuer == owner && parentId == missing && missing != ZERO_ID && !Get(m, missing).present
    else
      EndorsedBy(m, id, parentId) && Dangling(m, owner, now, parentId, missing)
  }

  /** What was live at a later moment was so before. */
  lemma {:induction false} DanglingBefore(
    m: Records, owner: Address, now: Uint256, now': Uint256, id: Bytes32, missing: Bytes32
  )
    requires Dangling(m, owner, now', id, missing) && now <= now'
    ensures Dangling(m, owner, now, id, missing)
    decreases Rank(Get(m, id).scope)
  {
    if Get(m, id).scope != Ministry {
      DanglingBefore(m, owner, now, now', Get(m, id).parentAccreditationId, missing);
    }
  }

  /** A parentless MemberState that the owner issues to itself, and that can stand in for a missing parent. */
  ghost predicate OwnersState(a: Accreditation, owner: Address) {
    && a.scope == MemberState && a.parentAccreditationId == ZERO_ID
    && a.issuer == owner && a.subject == owner
  }

  /** Storing such a record in the missing place makes everything that dangles from it valid. */
  lemma {:induction false} StateRepairs(
    m: Records, owner: Address, now: Uint256, id: Bytes32, missing: Bytes32, state: Accreditation
  )
    requires Dangling(m, owner, now, id, missing)
    requires Live(state, now) && OwnersState(state, owner)
    ensures !Get(m, missing).present && ValidateTrustChain(m[missing := state], owner, now, id)
    decreases Rank(Get(m, id).scope)
  {
    var m': Records := m[missing := state];
    var a := Get(m, id);
    if a.scope == Ministry {
      assert ValidateTrustChain(m', owner, now, missing);
    } else {
      var parentId := a.parentAccreditationId;
      StateRepairs(m, owner, now, parentId, missing, state);
      assert Get(m, parentId).present && Get(m', parentId) == Get(m, parentId);
    }
  }

  /** `a` came from the owner, or from the subject of a stored, no younger parent one level up. */
  ghost predicate Provenance(m: Records, owner: Address, a: Accreditation) {
    var parent := Get(m, a.parentAccreditationId);
    || (a.issuer == owner && a.scope in {MemberState, Ministry})
    || (parent.present && (parent.scope, a.scope) in HIERARCHY && parent.issuedAt <= a.issuedAt
        && (parent.subject == a.issuer || a.issuer == owner))
  }

  /** A stored identifier that fails now and validates later was dangling from a record that was stored in between. */
  lemma {:induction false} LateVerdictDangled(
    m: Records, m': Records, owner: Address, now: Uint256, now': Uint256, id: Bytes32
  ) returns (missing: Bytes32)
    requires Evolves(m, m') && now <= now' && Get(m, id).present
    requires forall x | x in m :: Provenance(m, owner, m[x])
    requires !ValidateTrustChain(m, owner, now, id) && ValidateTrustChain(m', owner, now', id)
    ensures Dangling(m, owner, now', id, missing)
    ensures !Get(m, missing).present && Get(m', missing).present && OwnersState(Get(m', missing), owner)
    decreases Rank(Get(m, id).scope)
  {
    var a := Get(m, id);
    var parentId := a.parentAccreditationId;
    assert Get(m', id) == a.(revoked := Get(m', id).revoked);
    assert parentId != ZERO_ID && ValidateTrustChain(m', owner, now', parentId);
    var parent' := Get(m', parentId);
    if Get(m, parentId).present {
      assert parent' == Get(m, parentId).(revoked := parent'.revoked);
      missing := LateVerdictDangled(m, m', owner, now, now', parentId);
    } else {
      assert Provenance(m, owner, m[id]);
      missing := parentId;
    }
  }
}
