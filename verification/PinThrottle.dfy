/**
 * The wallet's PIN: a salted hash, a failure counter and a lock, kept in a key-value store.
 * Key derivation is a parameter, the clock readings are arguments, and calls are serial.
 */
module PinThrottle {
  import opened Evm

  const MAX_FAILURES_BEFORE_COOLDOWN: nat := 5
  const MAX_FAILURES_BEFORE_WIPE_OFFER: nat := 10
  const COOLDOWN_MS: nat := 30_000
  const CURRENT_ALGO := "argon2id"

  /** From a PIN and a salt to a hash. */
  type Derive = (string, string) -> string

  /** The five store entries; the two numbers are kept as decimal text and read back with `parseInt`. */
  datatype Store = Store(
    algo: Option<string>,
    salt: Option<string>,
    hash: Option<string>,
    failures: Option<nat>,
    lockedUntil: Option<nat>
  )

  datatype Status = Status(hasPin: bool, isLocked: bool, lockedUntil: Option<nat>, failures: nat, offerWipe: bool)

  datatype Verdict = Locked | NotConfigured | AlgoMismatch | Accepted | Refused

  /** One call of `verifyPin`: the clock as read on entry, and as read when a lock is written. */
  datatype Attempt = Attempt(pin: string, entered: nat, finished: nat)

  function Count(s: Store): nat {
    match s.failures
    case None => 0
    case Some(n) => n
  }

  predicate IsLockedAt(s: Store, now: nat) {
    s.lockedUntil.Some? && now < s.lockedUntil.value
  }

  function GetStatus(s: Store, now: nat): Status {
    var locked := IsLockedAt(s, now);
    Status(s.hash.Some?, locked, if locked then s.lockedUntil else None, Count(s), Count(s) >= MAX_FAILURES_BEFORE_WIPE_OFFER)
  }

  /** A missing entry and an empty one are both falsy. */
  predicate Missing(entry: Option<string>) {
    entry.None? || entry.value == ""
  }

  function Verify(derive: Derive, s: Store, a: Attempt): (Store, Verdict) {
    if GetStatus(s, a.entered).isLocked then (s, Locked)
    else if Missing(s.salt) || Missing(s.hash) then (s, NotConfigured)
    else if !Missing(s.algo) && s.algo.value != CURRENT_ALGO then (s, AlgoMismatch)
    else if derive(a.pin, s.salt.value) == s.hash.value then (s.(failures := Some(0), lockedUntil := None), Accepted)
    else
      var failures := Count(s) + 1;
      var lockedUntil :=
        if MAX_FAILURES_BEFORE_COOLDOWN <= failures < MAX_FAILURES_BEFORE_WIPE_OFFER then Some(a.finished + COOLDOWN_MS)
        else s.lockedUntil;
      (s.(failures := Some(failures), lockedUntil := lockedUntil), Refused)
  }

  /** `/^\d{6}$/`. */
  predicate IsSixDigits(pin: string) {
    |pin| == 6 && forall i | 0 <= i < 6 :: '0' <= pin[i] <= '9'
  }

  /** `setupPin`, with the salt it drew; it throws on a malformed PIN. */
  function Setup(derive: Derive, s: Store, pin: string, salt: string): (Store, bool) {
    if !IsSixDigits(pin) then (s, false)
    else (Store(Some(CURRENT_ALGO), Some(salt), Some(derive(pin, salt)), Some(0), None), true)
  }

  const CLEARED := Store(None, None, None, None, None)

  class PinService {
    const derive: Derive
    var store: Store

    constructor (derive: Derive)
      ensures this.derive == derive && store == CLEARED
    {
      this.derive, store := derive, CLEARED;
    }

    method SetupPin(pin: string, salt: string) returns (ok: bool)
      modifies this
      ensures (store, ok) == Setup(derive, old(store), pin, salt)
    {
      if !IsSixDigits(pin) {
        return false;
      }
      var hash := derive(pin, salt);
      store := store.(algo := Some(CURRENT_ALGO));
      store := store.(salt := Some(salt));
      store := store.(hash := Some(hash));
      store := store.(failures := Some(0));
      store := store.(lockedUntil := None);
      return true;
    }

    method VerifyPin(a: Attempt) returns (r: Verdict)
      modifies this
      ensures (store, r) == Verify(derive, old(store), a)
    {
      var status := GetStatus(store, a.entered);
      if status.isLocked {
        return Locked;
      }
      if Missing(store.salt) || Missing(store.hash) {
        return NotConfigured;
      }
      if !Missing(store.algo) && store.algo.value != CURRENT_ALGO {
        return AlgoMismatch;
      }

      var hash := derive(a.pin, store.salt.value);
      if hash == store.hash.value {
        store := store.(failures := Some(0));
        store := store.(lockedUntil := None);
        return Accepted;
      }

      var failures := status.failures + 1;
      store := store.(failures := Some(failures));
      if failures >= MAX_FAILURES_BEFORE_COOLDOWN && failures < MAX_FAILURES_BEFORE_WIPE_OFFER {
        store := store.(lockedUntil := Some(a.finished + COOLDOWN_MS));
      }
      return Refused;
    }

    method ClearPin()
      modifies this
      ensures store == CLEARED
    {
      store := store.(algo := None);
      store := store.(salt := None);
      store := store.(hash := None);
      store := store.(failures := None);
      store := store.(lockedUntil := None);
    }
  }

  // ---------------------------------------------------------------------------------------
  // Single attempts
  // ---------------------------------------------------------------------------------------

  /** A set-up is refused, and changes nothing, unless the PIN is six decimal digits; a wipe and a set-up both start afresh. */
  lemma SetupRefusedUnlessSixDigits(derive: Derive, s: Store, pin: string, salt: string, now: nat)
    ensures var (s', ok) := Setup(derive, s, pin, salt);
            && (ok <==> |pin| == 6 && forall c | c in pin :: c in "0123456789")
            && (!ok ==> s' == s)
            && (ok ==> && s'.algo == Some("argon2id") && s'.salt == Some(salt) && s'.hash == Some(derive(pin, salt))
                       && GetStatus(s', now) == Status(true, false, None, 0, false))
    ensures GetStatus(CLEARED, now) == Status(false, false, None, 0, false)
  {
    assert forall i | 0 <= i < |pin| :: pin[i] in pin;
  }

  /** What `getStatus` reports: the lock only while it holds, the offer to wipe from the tenth failure on. */
  lemma StatusReports(s: Store, now: nat)
    ensures var status := GetStatus(s, now);
            && (status.hasPin <==> s.hash.Some?)
            && (status.isLocked <==> status.lockedUntil.Some?)
            && (status.lockedUntil.Some? ==> status.lockedUntil == s.lockedUntil && now < status.lockedUntil.value)
            && (s.lockedUntil.Some? && now < s.lockedUntil.value ==> status.isLocked)
            && s.failures == (if s.failures.None? then None else Some(status.failures))
            && (s.failures.None? ==> status.failures == 0)
            && (status.offerWipe <==> status.failures >= 10)
  {
  }

  /**
   * Why an attempt is not even compared, reason by reason: a lock comes before a missing PIN, and that before a
   * hash made with another algorithm. None of the three changes the store, and acceptance clears the counter
   * and the lock.
   */
  lemma VerdictIff(derive: Derive, s: Store, a: Attempt)
    ensures var (s', r) := Verify(derive, s, a);
            var locked := s.lockedUntil.Some? && a.entered < s.lockedUntil.value;
            var configured := s.salt.Some? && s.salt.value != "" && s.hash.Some? && s.hash.value != "";
            var mismatch := s.algo.Some? && s.algo.value != "" && s.algo.value != "argon2id";
            && (r == Locked <==> locked)
            && (r == NotConfigured <==> !locked && !configured)
            && (r == AlgoMismatch <==> !locked && configured && mismatch)
            && (r == Accepted <==> !locked && configured && !mismatch && derive(a.pin, s.salt.value) == s.hash.value)
            && (r in {Locked, NotConfigured, AlgoMismatch} ==> s' == s)
            && (r == Accepted ==> s' == s.(failures := Some(0), lockedUntil := None))
  {
  }

  /**
   * A failed attempt locks the PIN for exactly the cooldown iff it brings the count to one of five to nine. From
   * the tenth failure on there is no lock at all, only the offer to wipe: whatever the count, the hash, the salt
   * and the algorithm stay.
   */
  lemma LockedAfterFailureIff(derive: Derive, s: Store, a: Attempt, now: nat)
    requires Verify(derive, s, a).1 == Refused && a.entered <= a.finished <= now
    ensures var s' := Verify(derive, s, a).0;
            && Count(s') == Count(s) + 1
            && s'.hash == s.hash && s'.salt == s.salt && s'.algo == s.algo
            && s'.lockedUntil == (if 5 <= Count(s') <= 9 then Some(a.finished + 30_000) else s.lockedUntil)
            && (GetStatus(s', now).isLocked <==> 5 <= Count(s') <= 9 && now < a.finished + 30_000)
            && (GetStatus(s', now).offerWipe <==> Count(s') >= 10)
  {
  }

  // ---------------------------------------------------------------------------------------
  // Runs of attempts
  // ---------------------------------------------------------------------------------------

  function After(derive: Derive, s: Store, attempts: seq<Attempt>): Store {
    if attempts == [] then s
    else Verify(derive, After(derive, s, attempts[..|attempts| - 1]), attempts[|attempts| - 1]).0
  }

  /** No attempt touches the secret. */
  lemma {:induction false} AttemptsKeepSecret(derive: Derive, s: Store, attempts: seq<Attempt>)
    ensures var s' := After(derive, s, attempts);
            s'.hash == s.hash && s'.salt == s.salt && s'.algo == s.algo
  {
    if attempts != [] { AttemptsKeepSecret(derive, s, attempts[..|attempts| - 1]); }
  }

  /**
   * After a set-up and any attempts since, an attempt that meets no lock is accepted iff its PIN derives
   * the hash that the PIN set up does, and acceptance puts the store back as it was after the set-up.
   */
  lemma SetupThenVerify(derive: Derive, s: Store, pin: string, salt: string, attempts: seq<Attempt>, a: Attempt)
    requires IsSixDigits(pin) && salt != "" && derive(pin, salt) != ""
    ensures var (s1, ok) := Setup(derive, s, pin, salt);
            var s2 := After(derive, s1, attempts);
            var (s3, r) := Verify(derive, s2, a);
            && ok
            && (r == Locked <==> IsLockedAt(s2, a.entered))
            && (r == Accepted <==> !IsLockedAt(s2, a.entered) && derive(a.pin, salt) == derive(pin, salt))
            && (r == Accepted ==> s3 == s1)
            && r in {Locked, Accepted, Refused}
  {
    AttemptsKeepSecret(derive, Setup(derive, s, pin, salt).0, attempts);
  }

  /** Each attempt starts after the one before has finished, the first not before `start`. */
  ghost predicate Serial(start: nat, attempts: seq<Attempt>) {
    attempts == [] ||
      var front, last := attempts[..|attempts| - 1], attempts[|attempts| - 1];
      Serial(start, front) && FinishOf(start, front) <= last.entered <= last.finished
  }

  function FinishOf(start: nat, attempts: seq<Attempt>): nat {
    if attempts == [] then start else attempts[|attempts| - 1].finished
  }

  predicate NoneAccepted(derive: Derive, s: Store, attempts: seq<Attempt>) {
    attempts == [] ||
      var front, last := attempts[..|attempts| - 1], attempts[|attempts| - 1];
      NoneAccepted(derive, s, front) && Verify(derive, After(derive, s, front), last).1 != Accepted
  }

  /** While the count is five to nine a lock is written, and each failure since the fifth has moved it on by a cooldown. */
  ghost predicate Throttled(fifth: nat, s: Store) {
    && Count(s) >= 5
    && (Count(s) <= 9 ==> s.lockedUntil.Some? && s.lockedUntil.value >= fifth + (Count(s) - 4) * COOLDOWN_MS)
  }

  lemma {:induction false} AttemptsKeepThrottle(derive: Derive, fifth: nat, s: Store, attempts: seq<Attempt>)
    requires Throttled(fifth, s) && Serial(fifth, attempts) && NoneAccepted(derive, s, attempts)
    ensures Throttled(fifth, After(derive, s, attempts))
  {
    if attempts != [] {
      AttemptsKeepThrottle(derive, fifth, s, attempts[..|attempts| - 1]);
    }
  }

  /**
   * The throttle. Let `first` be the failure that brings the count to five, and let any serial run of
   * attempts follow, none accepted. If the next failure brings the count to k, six to ten, it finishes at
   * least k - 5 cooldowns after the first did.
   */
  lemma ThrottleBound(derive: Derive, s: Store, first: Attempt, attempts: seq<Attempt>, last: Attempt)
    requires Count(s) == 4 && Verify(derive, s, first).1 == Refused
    requires var s5 := Verify(derive, s, first).0;
             && Serial(first.finished, attempts + [last])
             && NoneAccepted(derive, s5, attempts)
             && Verify(derive, After(derive, s5, attempts), last).1 == Refused
    ensures var k := Count(Verify(derive, After(derive, Verify(derive, s, first).0, attempts), last).0);
            k >= 6 && (k <= 10 ==> last.finished >= first.finished + (k - 5) * 30_000)
  {
    var s5 := Verify(derive, s, first).0;
    assert (attempts + [last])[..|attempts|] == attempts;
    AttemptsKeepThrottle(derive, first.finished, s5, attempts);
  }

  /** An attempt refused by the lock leaves the store as it was, so it neither counts nor extends the lock. */
  lemma {:induction false} LockedAttemptsChangeNothing(derive: Derive, s: Store, attempts: seq<Attempt>)
    requires forall i | 0 <= i < |attempts| :: IsLockedAt(s, attempts[i].entered)
    ensures After(derive, s, attempts) == s
  {
    if attempts != [] {
      LockedAttemptsChangeNothing(derive, s, attempts[..|attempts| - 1]);
    }
  }
}
