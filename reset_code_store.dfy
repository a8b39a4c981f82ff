/**
  ResetCodeStore: the in-memory table of password-reset codes, keyed by
  email, each with the instant it stops being accepted. Expired entries are
  purged lazily, by the validation that finds them.
 */
module ResetCodes {
  import opened Models

  datatype CodeEntry = CodeEntry(code: string, expiry: Instant)

  /** The two answers of ValidateCode: its return value and its isExpired out-parameter. */
  datatype Validation = Validation(valid: bool, isExpired: bool)

  /** TimeSpan ticks: a tick is 100 nanoseconds. */
  const TicksPerMinute: int := 600_000_000

  /** The lifetime the password-reset endpoint gives a code: TimeSpan.FromMinutes(15). */
  const ResetCodeLifetime: int := 15 * TicksPerMinute

  /** The table after StoreCode: an upsert of the email's entry. */
  function Stored(codes: map<string, CodeEntry>, email: string, code: string, lifetime: int, now: Instant): (r: map<string, CodeEntry>)
    ensures email in r && r[email] == CodeEntry(code, now + lifetime)
    ensures forall e :: e != email ==> (e in r <==> e in codes) && (e in codes ==> r[e] == codes[e])
  {
    codes[email := CodeEntry(code, now + lifetime)]
  }

  /**
    The answer of ValidateCode at instant now: an absent email is neither
    valid nor expired; an entry whose expiry is before now is expired; any
    other entry is valid exactly when its code matches.
   */
  function Check(codes: map<string, CodeEntry>, email: string, code: string, now: Instant): (r: Validation)
    ensures r.valid ==> !r.isExpired
    ensures r.valid <==> email in codes && now <= codes[email].expiry && codes[email].code == code
    ensures r.isExpired <==> email in codes && codes[email].expiry < now
  {
    if email !in codes then Validation(false, false)
    else if codes[email].expiry < now then Validation(false, true)
    else Validation(codes[email].code == code, false)
  }

  /** The table after ValidateCode: only an expired entry of that email is dropped. */
  function AfterCheck(codes: map<string, CodeEntry>, email: string, now: Instant): (r: map<string, CodeEntry>)
    ensures r.Keys <= codes.Keys
    ensures forall e :: e in r ==> r[e] == codes[e]
    ensures forall e :: e in codes && e != email ==> e in r
    ensures email in r <==> email in codes && now <= codes[email].expiry
  {
    if email in codes && codes[email].expiry < now then codes - {email} else codes
  }

  /** The table after RemoveCode. */
  function Removed(codes: map<string, CodeEntry>, email: string): (r: map<string, CodeEntry>)
    ensures email !in r
    ensures forall e :: e != email ==> (e in r <==> e in codes) && (e in r ==> r[e] == codes[e])
  {
    codes - {email}
  }

  class ResetCodeStore {
    var codes: map<string, CodeEntry>

    constructor ()
      ensures codes == map[]
    {
      codes := map[];
    }

    /** StoreCode(email, code, expiry) at instant now. */
    method StoreCode(email: string, code: string, lifetime: int, now: Instant)
      modifies this
      ensures codes == Stored(old(codes), email, code, lifetime, now)
    {
      codes := codes[email := CodeEntry(code, now + lifetime)];
    }

    /** ValidateCode(email, code, out isExpired) at instant now. */
    method ValidateCode(email: string, code: string, now: Instant) returns (valid: bool, isExpired: bool)
      modifies this
      ensures Validation(valid, isExpired) == Check(old(codes), email, code, now)
      ensures codes == AfterCheck(old(codes), email, now)
    {
      isExpired := false;
      if email !in codes {
        return false, isExpired;
      }
      var stored := codes[email];
      if stored.expiry < now {
        isExpired := true;
        codes := codes - {email};
        return false, isExpired;
      }
      valid := stored.code == code;
    }

    method RemoveCode(email: string)
      modifies this
      ensures codes == Removed(old(codes), email)
    {
      codes := codes - {email};
    }
  }

  // ---------------------------------------------------------------------
  // Properties of the table

  /** A stored code is accepted at every instant up to and including its expiry, and checking it changes nothing. */
  lemma StoredCodeValidUntilExpiry(codes: map<string, CodeEntry>, email: string, code: string, lifetime: int, now: Instant, t: Instant)
    requires t <= now + lifetime
    ensures Check(Stored(codes, email, code, lifetime, now), email, code, t) == Validation(true, false)
    ensures AfterCheck(Stored(codes, email, code, lifetime, now), email, t) == Stored(codes, email, code, lifetime, now)
  {
  }

  /** Storing a new code for an email makes the previous one fail, without reporting expiry. */
  lemma OverwriteInvalidatesOldCode(codes: map<string, CodeEntry>, email: string, oldCode: string, newCode: string, lifetime: int, now: Instant, t: Instant)
    requires oldCode != newCode
    ensures !Check(Stored(codes, email, newCode, lifetime, now), email, oldCode, t).valid
  {
  }

  /** Storing or removing one email's code leaves every other email's answer as it was. */
  lemma OtherEmailsUnaffected(codes: map<string, CodeEntry>, email: string, other: string, code: string, lifetime: int, now: Instant, guess: string, t: Instant)
    requires other != email
    ensures Check(Stored(codes, email, code, lifetime, now), other, guess, t) == Check(codes, other, guess, t)
    ensures Check(Removed(codes, email), other, guess, t) == Check(codes, other, guess, t)
  {
  }

  /** Validating an email that has no code answers (false, not expired) and changes nothing. */
  lemma AbsentEmailUnchanged(codes: map<string, CodeEntry>, email: string, code: string, now: Instant)
    requires email !in codes
    ensures Check(codes, email, code, now) == Validation(false, false)
    ensures AfterCheck(codes, email, now) == codes
  {
  }

  /** An expired code is reported once and purged, so an immediate retry finds nothing. */
  lemma ExpiredCodeIsPurged(codes: map<string, CodeEntry>, email: string, code: string, now: Instant, retry: string)
    requires email in codes && codes[email].expiry < now
    ensures Check(codes, email, code, now) == Validation(false, true)
    ensures Check(AfterCheck(codes, email, now), email, retry, now) == Validation(false, false)
  {
  }

  /** A wrong guess at an unexpired code keeps the entry, so the right code still works afterwards. */
  lemma WrongCodeKeepsEntry(codes: map<string, CodeEntry>, email: string, guess: string, now: Instant)
    requires email in codes && now <= codes[email].expiry && codes[email].code != guess
    ensures Check(codes, email, guess, now) == Validation(false, false)
    ensures AfterCheck(codes, email, now) == codes
    ensures Check(AfterCheck(codes, email, now), email, codes[email].code, now) == Validation(true, false)
  {
  }

  /** RemoveCode is a no-op on an absent email and removing twice is removing once. */
  lemma RemoveIdempotent(codes: map<string, CodeEntry>, email: string)
    ensures email !in codes ==> Removed(codes, email) == codes
    ensures Removed(Removed(codes, email), email) == Removed(codes, email)
  {
  }
}
