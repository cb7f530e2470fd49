/** The refresh-token entity (entity/RefreshToken.java): a stored credential with an
    owner and an expiry instant, its expiry test, its extension and its identity. */
module RefreshTokenEntity {
  import opened Wrappers

  /** A reading of the server's local clock (`LocalDateTime`), in whole seconds. */
  type Instant = int

  /** The primary key of a user row. */
  type UserId = int

  const SecondsPerDay: int := 86400

  /** `LocalDateTime.plusDays`: a local date-time has no daylight-saving gaps. */
  function PlusDays(t: Instant, days: int): (r: Instant)
    ensures days >= 0 ==> r >= t
    ensures r - t == days * SecondsPerDay
  {
    t + days * SecondsPerDay
  }

  /** `isExpired`: the clock reads strictly after the expiry instant, so a token is
      still live at exactly its expiry instant. */
  predicate Expired(expiryDate: Instant, now: Instant)
    ensures Expired(expiryDate, now) <==> expiryDate < now
  {
    now > expiryDate
  }

  /** The characters of the token value that `toString` shows: never more than ten. */
  function TokenExcerpt(token: string): (r: string)
    ensures r <= token
    ensures |r| == if |token| < 10 then |token| else 10
  {
    token[..if |token| < 10 then |token| else 10]
  }

  /** The value `RefreshToken.hashCode` returns: one constant for the whole class. */
  const ClassHash: int := 0x52544b4e

  class RefreshToken {
    /** Database identity; `None` until the row is persisted. */
    var id: Option<int>
    var token: string
    var expiryDate: Instant
    var user: UserId

    constructor (token: string, user: UserId, expiryDate: Instant)
      ensures this.token == token && this.user == user && this.expiryDate == expiryDate
      ensures id == None
    {
      this.id := None;
      this.token := token;
      this.user := user;
      this.expiryDate := expiryDate;
    }

    /** `isExpired`, read at the clock value `now`. */
    predicate IsExpired(now: Instant)
      reads this
      ensures IsExpired(now) <==> expiryDate < now
    {
      Expired(expiryDate, now)
    }

    /** Moves the expiry to `days` after the current clock reading, whatever it was. */
    method Extend(days: int, now: Instant)
      modifies this`expiryDate
      ensures expiryDate == PlusDays(now, days)
      ensures days >= 0 ==> !IsExpired(now)
    {
      expiryDate := PlusDays(now, days);
    }

    /** Entity equality: the same object, or two objects carrying the same database id. */
    predicate Equals(that: RefreshToken?)
      reads this, that
      ensures Equals(that) ==> that != null
      ensures that != null && that != this && (id.None? || that.id.None?) ==> !Equals(that)
    {
      this == that || (that != null && id.Some? && id == that.id)
    }

    /** Reads no field: the hash is fixed before and after the id is assigned. */
    function HashCode(): (h: int)
      ensures h == ClassHash
    {
      ClassHash
    }
  }

  /** Equality on refresh tokens is an equivalence relation, two distinct objects are
      never equal while either is unsaved, and the constant hash agrees with it. */
  lemma EqualsIsIdentityOrSavedId(a: RefreshToken, b: RefreshToken, c: RefreshToken)
    ensures a.Equals(a)
    ensures a.Equals(b) == b.Equals(a)
    ensures a.Equals(b) && b.Equals(c) ==> a.Equals(c)
    ensures a != b && (a.id == None || b.id == None) ==> !a.Equals(b)
    ensures a.Equals(b) ==> a.HashCode() == b.HashCode()
  {
  }
}
