/**
 * The user service: list with pagination and search, read one, patch one,
 * delete one. Every user it returns is redacted; every operation on an id
 * first checks that the id exists.
 */
module Service {
  import opened Wrappers
  import opened Users
  import opened Search
  import opened Pagination
  import opened Conflicts
  import opened Store

  /** `{ data, meta }` of a listing. */
  datatype PageResult = PageResult(data: seq<PublicUser>, meta: Meta)

  /** `{ message }` of a deletion. */
  datatype DeleteResponse = DeleteResponse(message: string)

  /** A page cut from a listing shows at most `limit` records, each the redacted form of a stored row that passes the filter. */
  lemma PageShowsMatchingRows(listing: seq<User>, m: UserMap, w: Where, p: int, l: int)
    requires KeysAreIds(m) && IsOrderedListing(listing, m, w) && p >= 1 && l >= 1
    ensures var data := RedactAll(Window(listing, Skip(p, l), l));
            && |data| <= l
            && forall i :: 0 <= i < |data| ==>
                 Skip(p, l) + i < |listing| &&
                 var u := listing[Skip(p, l) + i];
                 u.id in m && m[u.id] == u && Satisfies(u, w) && data[i] == Redact(u)
  {
    ListingRowsMatch(listing, m, w);
  }

  /** The metadata of a page agrees with the listing it is cut from. */
  lemma PageMetaDescribesListing(listing: seq<User>, m: UserMap, w: Where, p: int, l: int)
    requires IsOrderedListing(listing, m, w) && p >= 1 && l >= 1
    ensures var shown, meta := Window(listing, Skip(p, l), l), PageMeta(|Matching(m, w)|, p, l);
            && meta.total == |listing|
            && (meta.hasNextPage <==> Skip(p, l) + |shown| < |listing|)
            && (meta.hasPrevPage <==> p > 1)
  {
    ListingLength(listing, m, w);
    NextPageIffRowsRemain(listing, p, l);
    SkipSteps(p, l);
  }

  class UsersService {
    const prisma: UserStore

    constructor (prisma: UserStore)
      ensures this.prisma == prisma
    {
      this.prisma := prisma;
    }

    /**
     * `findAll(page, limit, search)`. The row listing and the count are two
     * reads of the same table with the same filter; `listing` is the full
     * newest-first listing the page is cut from.
     */
    method FindAll(page: Option<int>, limit: Option<int>, search: Option<string>)
      returns (res: PageResult, ghost listing: seq<User>)
      requires prisma.Valid()
      ensures var p, l, w := NormalisePage(page), NormaliseLimit(limit), BuildWhere(search);
              && IsOrderedListing(listing, prisma.users, w)
              && res.data == RedactAll(Window(listing, Skip(p, l), l))
              && res.meta == PageMeta(|Matching(prisma.users, w)|, p, l)
      ensures res.meta.total == |listing|
      ensures |res.data| <= NormaliseLimit(limit)
    {
      var p := NormalisePage(page);
      var l := NormaliseLimit(limit);
      var skip := Skip(p, l);
      var w := BuildWhere(search);
      var users;
      users, listing := prisma.FindMany(w, skip, l);
      var total := prisma.Count(w);
      res := PageResult(RedactAll(users), PageMeta(total, p, l));
      PageShowsMatchingRows(listing, prisma.users, w, p, l);
      PageMetaDescribesListing(listing, prisma.users, w, p, l);
    }

    /** `findOne(id)`: the redacted row, or NotFound. */
    method FindOne(id: string) returns (r: Result<PublicUser, ServiceError>)
      ensures id in prisma.users ==> r == Ok(Redact(prisma.users[id]))
      ensures id !in prisma.users ==> r == Err(NotFound(NotFoundMessage(id)))
    {
      var user := prisma.FindUnique(id);
      if user.None? {
        return Err(NotFound(NotFoundMessage(id)));
      }
      r := Ok(Redact(user.value));
    }

    /**
     * `update(id, dto)`: NotFound before any write when the id is absent;
     * otherwise one write, whose uniqueness violations are translated.
     * `fault` is a failure the store may report instead of performing the write.
     */
    method Update(id: string, dto: UserPatch, fault: Option<DbError>) returns (r: Result<PublicUser, ServiceError>)
      requires prisma.Valid()
      modifies prisma
      ensures prisma.Valid()
      ensures r.Err? ==> prisma.users == old(prisma.users)
      ensures id !in old(prisma.users) ==>
                r == Err(NotFound(NotFoundMessage(id))) && prisma.writes == old(prisma.writes)
      ensures id in old(prisma.users) ==> prisma.writes == old(prisma.writes) + 1
      ensures id in old(prisma.users) && fault.Some? ==> r == Err(TranslateWriteError(fault.value))
      ensures id in old(prisma.users) && fault.None? ==>
                var u := ApplyPatch(old(prisma.users)[id], dto);
                if EmailUsedByOther(old(prisma.users), id, u.email) then r == Err(Conflict(EmailInUse))
                else r == Ok(Redact(u)) && prisma.users == old(prisma.users)[id := u]
    {
      var user := prisma.FindUnique(id);
      if user.None? {
        return Err(NotFound(NotFoundMessage(id)));
      }
      PatchClashIsEmail(prisma.users, id, dto);
      var updated := prisma.Update(id, dto, fault);
      match updated
      case Ok(u) =>
        r := Ok(Redact(u));
      case Err(e) =>
        r := Err(TranslateWriteError(e));
    }

    /** `remove(id)`: NotFound before any write when the id is absent; otherwise deletes exactly that row. */
    method Remove(id: string, fault: Option<DbError>) returns (r: Result<DeleteResponse, ServiceError>)
      requires prisma.Valid()
      modifies prisma
      ensures prisma.Valid()
      ensures id !in old(prisma.users) ==>
                && r == Err(NotFound(NotFoundMessage(id)))
                && prisma.users == old(prisma.users) && prisma.writes == old(prisma.writes)
      ensures id in old(prisma.users) ==> prisma.writes == old(prisma.writes) + 1
      ensures id in old(prisma.users) && fault.Some? ==>
                r == Err(Rethrown(fault.value)) && prisma.users == old(prisma.users)
      ensures id in old(prisma.users) && fault.None? ==>
                r == Ok(DeleteResponse(Deleted)) && prisma.users == old(prisma.users) - {id}
    {
      var user := prisma.FindUnique(id);
      if user.None? {
        return Err(NotFound(NotFoundMessage(id)));
      }
      var deleted := prisma.Delete(id, fault);
      if deleted.Err? {
        return Err(Rethrown(deleted.error));
      }
      r := Ok(DeleteResponse(Deleted));
    }
  }

  /** Removing the same user twice: the first call deletes, the second reports NotFound and writes nothing. */
  method RemoveTwice(svc: UsersService, id: string)
    returns (first: Result<DeleteResponse, ServiceError>, second: Result<DeleteResponse, ServiceError>)
    requires svc.prisma.Valid() && id in svc.prisma.users
    modifies svc.prisma
    ensures first == Ok(DeleteResponse(Deleted))
    ensures second == Err(NotFound(NotFoundMessage(id)))
    ensures svc.prisma.users == old(svc.prisma.users) - {id}
    ensures svc.prisma.writes == old(svc.prisma.writes) + 1
  {
    first := svc.Remove(id, None);
    second := svc.Remove(id, None);
  }

  /** An update that succeeds is what a following read returns. */
  method UpdateThenFindOne(svc: UsersService, id: string, dto: UserPatch)
    returns (updated: Result<PublicUser, ServiceError>, read: Result<PublicUser, ServiceError>)
    requires svc.prisma.Valid()
    modifies svc.prisma
    ensures updated.Ok? ==> read == updated
    ensures updated.Err? ==> svc.prisma.users == old(svc.prisma.users)
  {
    updated := svc.Update(id, dto, None);
    read := svc.FindOne(id);
  }

  lemma SampleTableConsistent(u1: User, u2: User)
    requires u1 == SampleUser("u1", "a@x.com", "+254700000001", 1)
    requires u2 == SampleUser("u2", "b@x.com", "+254700000002", 2)
    ensures TableInvariant(map["u1" := u1, "u2" := u2])
  {
    assert "u1"[1] != "u2"[1];
    assert "a@x.com"[0] != "b@x.com"[0];
    assert "+254700000001"[12] != "+254700000002"[12];
  }

  function SampleUser(id: string, email: string, phone: string, createdAt: int): (u: User)
  {
    User(id, "Jane", None, "Doe", Female, "2000-01-01", "Nakuru", "Njoro", email,
         "+254720123456", phone, "1234", createdAt, [])
  }

  /** Moving u2 onto u1's email is refused with the email conflict and leaves both rows as they were. */
  method EmailConflictScenario() returns (r: Result<PublicUser, ServiceError>, after: UserMap)
    ensures r == Err(Conflict(EmailInUse))
    ensures "u1" in after && "u2" in after
    ensures after["u1"].email == "a@x.com" && after["u2"].email == "b@x.com"
  {
    var u1 := SampleUser("u1", "a@x.com", "+254700000001", 1);
    var u2 := SampleUser("u2", "b@x.com", "+254700000002", 2);
    SampleTableConsistent(u1, u2);
    var table := map["u1" := u1, "u2" := u2];
    var store := new UserStore(table);
    var svc := new UsersService(store);
    var dto := EmptyPatch.(email := Some("a@x.com"));
    assert "u1" in table && "u1" != "u2" && table["u1"].email == ApplyPatch(u2, dto).email;
    assert EmailUsedByOther(table, "u2", ApplyPatch(u2, dto).email);
    r := svc.Update("u2", dto, None);
    after := store.users;
  }
}
