/**
 * The User entity as the service sees it: the stored record (with its secret
 * PIN and its joined farms), the public view that leaves the service, and the
 * sparse patch accepted by `update`.
 */
module Users {
  import opened Wrappers

  datatype Gender = Male | Female

  /** A farm row joined to its owner (`include: { farms: true }`); the service passes it through untouched. */
  datatype Farm = Farm(
    id: string,
    name: string,
    county: string,
    administrativeLocation: string,
    size: real,
    ownership: string,
    farmingTypes: seq<string>,
    userId: string)

  /** A stored user row; `createdAt` is the ordering key of listings. */
  datatype User = User(
    id: string,
    firstName: string,
    middleName: Option<string>,
    lastName: string,
    gender: Gender,
    dob: string,
    residenceCounty: string,
    residenceLocation: string,
    email: string,
    businessNumber: string,
    phoneNumber: string,
    pin: string,
    createdAt: int,
    farms: seq<Farm>)

  /** What the service returns for a user: every field of the row except `pin`. */
  datatype PublicUser = PublicUser(
    id: string,
    firstName: string,
    middleName: Option<string>,
    lastName: string,
    gender: Gender,
    dob: string,
    residenceCounty: string,
    residenceLocation: string,
    email: string,
    businessNumber: string,
    phoneNumber: string,
    createdAt: int,
    farms: seq<Farm>)

  /** Puts a PIN back on a public record; the inverse of Redact. */
  function Restore(p: PublicUser, pin: string): (u: User)
  {
    User(p.id, p.firstName, p.middleName, p.lastName, p.gender, p.dob,
         p.residenceCounty, p.residenceLocation, p.email, p.businessNumber,
         p.phoneNumber, pin, p.createdAt, p.farms)
  }

  /** `const { pin, ...result } = user`: drops the PIN and nothing else. */
  function Redact(u: User): (r: PublicUser)
    ensures Restore(r, u.pin) == u
  {
    PublicUser(u.id, u.firstName, u.middleName, u.lastName, u.gender, u.dob,
               u.residenceCounty, u.residenceLocation, u.email, u.businessNumber,
               u.phoneNumber, u.createdAt, u.farms)
  }

  /** `users.map(({ pin, ...user }) => user)` */
  function RedactAll(us: seq<User>): (r: seq<PublicUser>)
    ensures |r| == |us|
    ensures forall i :: 0 <= i < |us| ==> r[i] == Redact(us[i])
  {
    seq(|us|, i requires 0 <= i < |us| => Redact(us[i]))
  }

  /** Two rows have the same public view exactly when they differ at most in their PIN. */
  lemma RedactForgetsOnlyPin(u: User, v: User)
    ensures Redact(u) == Redact(v) <==> u.(pin := v.pin) == v
  {
  }

  /** Restoring and redacting again gives back the public record. */
  lemma RedactRestore(p: PublicUser, pin: string)
    ensures Redact(Restore(p, pin)) == p && Restore(p, pin).pin == pin
  {
  }

  /**
   * The update payload: every field the update DTO declares, each optional.
   * It declares neither `phoneNumber` nor `pin`, nor `id`, `createdAt` or `farms`.
   * `middleName`, the one nullable column, may also be sent as an explicit null
   * (`Some(None)`), which clears it; `None` means the field is absent.
   */
  datatype UserPatch = UserPatch(
    firstName: Option<string>,
    middleName: Option<Option<string>>,
    lastName: Option<string>,
    gender: Option<Gender>,
    dob: Option<string>,
    residenceCounty: Option<string>,
    residenceLocation: Option<string>,
    email: Option<string>,
    businessNumber: Option<string>)

  const EmptyPatch := UserPatch(None, None, None, None, None, None, None, None, None)

  function Pick<T>(o: Option<T>, current: T): (r: T)
  {
    if o.Some? then o.value else current
  }

  /** `after` is what a present patch field says, or `before` when the field is absent. */
  predicate Overwrites<T(==)>(o: Option<T>, before: T, after: T)
  {
    match o
    case Some(v) => after == v
    case None => after == before
  }

  /** Applying a patch overwrites exactly the fields it carries. */
  function ApplyPatch(u: User, p: UserPatch): (r: User)
    ensures r.id == u.id && r.phoneNumber == u.phoneNumber && r.pin == u.pin
    ensures r.createdAt == u.createdAt && r.farms == u.farms
    ensures Overwrites(p.firstName, u.firstName, r.firstName)
    ensures Overwrites(p.middleName, u.middleName, r.middleName)
    ensures Overwrites(p.lastName, u.lastName, r.lastName)
    ensures Overwrites(p.gender, u.gender, r.gender)
    ensures Overwrites(p.dob, u.dob, r.dob)
    ensures Overwrites(p.residenceCounty, u.residenceCounty, r.residenceCounty)
    ensures Overwrites(p.residenceLocation, u.residenceLocation, r.residenceLocation)
    ensures Overwrites(p.email, u.email, r.email)
    ensures Overwrites(p.businessNumber, u.businessNumber, r.businessNumber)
  {
    u.(firstName := Pick(p.firstName, u.firstName),
       middleName := Pick(p.middleName, u.middleName),
       lastName := Pick(p.lastName, u.lastName),
       gender := Pick(p.gender, u.gender),
       dob := Pick(p.dob, u.dob),
       residenceCounty := Pick(p.residenceCounty, u.residenceCounty),
       residenceLocation := Pick(p.residenceLocation, u.residenceLocation),
       email := Pick(p.email, u.email),
       businessNumber := Pick(p.businessNumber, u.businessNumber))
  }

  /** Later patch wins field by field. */
  function Merge(p: UserPatch, q: UserPatch): (r: UserPatch)
  {
    UserPatch(
      if q.firstName.Some? then q.firstName else p.firstName,
      if q.middleName.Some? then q.middleName else p.middleName,
      if q.lastName.Some? then q.lastName else p.lastName,
      if q.gender.Some? then q.gender else p.gender,
      if q.dob.Some? then q.dob else p.dob,
      if q.residenceCounty.Some? then q.residenceCounty else p.residenceCounty,
      if q.residenceLocation.Some? then q.residenceLocation else p.residenceLocation,
      if q.email.Some? then q.email else p.email,
      if q.businessNumber.Some? then q.businessNumber else p.businessNumber)
  }

  /** An empty payload changes nothing. */
  lemma EmptyPatchIsIdentity(u: User)
    ensures ApplyPatch(u, EmptyPatch) == u
  {
  }

  /** Sending the same payload twice has the effect of sending it once. */
  lemma PatchIdempotent(u: User, p: UserPatch)
    ensures ApplyPatch(ApplyPatch(u, p), p) == ApplyPatch(u, p)
  {
  }

  /** Two successive updates are one update with the merged payload. */
  lemma PatchComposes(u: User, p: UserPatch, q: UserPatch)
    ensures ApplyPatch(ApplyPatch(u, p), q) == ApplyPatch(u, Merge(p, q))
  {
  }
}
