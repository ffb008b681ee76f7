/**
 * An in-memory stand-in for the database's user table: a map from id to row.
 * It answers the five calls the service makes (`findUnique`, `findMany`,
 * `count`, `update`, `delete`) and keeps the table's constraints: each row is
 * stored under its own id, and email and phone number are unique.
 */
module Store {
  import opened Wrappers
  import opened Users
  import opened Search
  import opened Conflicts
  import opened Pagination

  type UserMap = map<string, User>

  // ----- table constraints -----

  predicate KeysAreIds(m: UserMap)
  {
    forall k :: k in m ==> m[k].id == k
  }

  predicate UniqueEmails(m: UserMap)
  {
    forall j, k :: j in m && k in m && j != k ==> m[j].email != m[k].email
  }

  predicate UniquePhones(m: UserMap)
  {
    forall j, k :: j in m && k in m && j != k ==> m[j].phoneNumber != m[k].phoneNumber
  }

  /** Every joined farm points back at the user it is listed under. */
  predicate FarmsBelong(m: UserMap)
  {
    forall k, i :: k in m && 0 <= i < |m[k].farms| ==> m[k].farms[i].userId == k
  }

  predicate TableInvariant(m: UserMap)
  {
    KeysAreIds(m) && UniqueEmails(m) && UniquePhones(m) && FarmsBelong(m)
  }

  predicate EmailUsedByOther(m: UserMap, id: string, email: string)
  {
    exists k :: k in m && k != id && m[k].email == email
  }

  predicate PhoneUsedByOther(m: UserMap, id: string, phone: string)
  {
    exists k :: k in m && k != id && m[k].phoneNumber == phone
  }

  /** The unique column that writing row `u` under `id` would violate, if any (email is checked first). */
  function Clash(m: UserMap, id: string, u: User): (c: Option<seq<string>>)
    ensures c.None? <==> !EmailUsedByOther(m, id, u.email) && !PhoneUsedByOther(m, id, u.phoneNumber)
    ensures c == Some(["email"]) <==> EmailUsedByOther(m, id, u.email)
  {
    if EmailUsedByOther(m, id, u.email) then Some(["email"])
    else if PhoneUsedByOther(m, id, u.phoneNumber) then Some(["phoneNumber"])
    else None
  }

  /** A patch cannot change the phone number, so on a consistent table only its email can clash. */
  lemma PatchClashIsEmail(m: UserMap, id: string, p: UserPatch)
    requires TableInvariant(m) && id in m
    ensures var c := Clash(m, id, ApplyPatch(m[id], p));
            c.Some? ==> c == Some(["email"]) && p.email.Some? && EmailUsedByOther(m, id, p.email.value)
  {
  }

  /** Writing a patched row that clashes with nothing keeps every constraint of the table. */
  lemma PatchKeepsInvariant(m: UserMap, id: string, p: UserPatch)
    requires TableInvariant(m) && id in m
    requires Clash(m, id, ApplyPatch(m[id], p)).None?
    ensures TableInvariant(m[id := ApplyPatch(m[id], p)])
  {
  }

  lemma DeleteKeepsInvariant(m: UserMap, id: string)
    requires TableInvariant(m)
    ensures TableInvariant(m - {id})
  {
  }

  // ----- listings -----

  /** Ordered by `createdAt` descending. */
  predicate NewestFirst(rows: seq<User>)
  {
    forall i, j :: 0 <= i < j < |rows| ==> rows[i].createdAt >= rows[j].createdAt
  }

  lemma BoundedByHead(h: int, rest: seq<User>, u: User, tail: seq<User>)
    requires forall x :: x in rest ==> h >= x.createdAt
    requires h >= u.createdAt
    requires multiset(tail) == multiset(rest) + multiset{u}
    ensures forall j :: 0 <= j < |tail| ==> h >= tail[j].createdAt
  {
    forall j | 0 <= j < |tail|
      ensures h >= tail[j].createdAt
    {
      assert tail[j] in multiset(tail);
    }
  }

  /** Puts `u` into a newest-first listing, after the rows that are at least as new. */
  function InsertNewestFirst(rows: seq<User>, u: User): (r: seq<User>)
    requires NewestFirst(rows)
    ensures NewestFirst(r)
    ensures multiset(r) == multiset(rows) + multiset{u}
    decreases |rows|
  {
    if rows == [] then [u]
    else if rows[0].createdAt >= u.createdAt then
      var tail := InsertNewestFirst(rows[1..], u);
      assert rows == [rows[0]] + rows[1..];
      BoundedByHead(rows[0].createdAt, rows[1..], u, tail);
      [rows[0]] + tail
    else
      [u] + rows
  }

  /** The rows among `keys` that pass the filter. */
  function MatchingIn(m: UserMap, keys: set<string>, w: Where): (r: set<User>)
  {
    set k | k in keys && k in m && Satisfies(m[k], w) :: m[k]
  }

  /** The rows of the table that pass the filter: what `count({ where })` counts. */
  function Matching(m: UserMap, w: Where): (r: set<User>)
  {
    MatchingIn(m, m.Keys, w)
  }

  lemma MatchingStep(m: UserMap, keys: set<string>, k: string, w: Where)
    requires KeysAreIds(m) && k in m && k !in keys
    ensures m[k] !in MatchingIn(m, keys, w)
    ensures MatchingIn(m, keys + {k}, w) ==
              if Satisfies(m[k], w) then MatchingIn(m, keys, w) + {m[k]} else MatchingIn(m, keys, w)
  {
  }

  lemma AddFreshToMultiset(s: set<User>, x: User)
    requires x !in s
    ensures multiset(s + {x}) == multiset(s) + multiset{x}
  {
  }

  lemma CountGrows(m: UserMap, seen: set<string>, k: string, w: Where)
    requires KeysAreIds(m) && k in m && k !in seen
    ensures |MatchingIn(m, seen + {k}, w)| == |MatchingIn(m, seen, w)| + if Satisfies(m[k], w) then 1 else 0
  {
    MatchingStep(m, seen, k, w);
  }

  /** Taking one more key into account keeps a newest-first listing of the matching rows seen so far. */
  lemma ListingGrows(m: UserMap, seen: set<string>, k: string, w: Where, sorted: seq<User>)
    requires KeysAreIds(m) && k in m && k !in seen
    requires NewestFirst(sorted) && multiset(sorted) == multiset(MatchingIn(m, seen, w))
    ensures var next := if Satisfies(m[k], w) then InsertNewestFirst(sorted, m[k]) else sorted;
            NewestFirst(next) && multiset(next) == multiset(MatchingIn(m, seen + {k}, w))
  {
  }

  /** `rows` lists every matching row exactly once, newest first. */
  ghost predicate IsOrderedListing(rows: seq<User>, m: UserMap, w: Where)
  {
    NewestFirst(rows) && multiset(rows) == multiset(Matching(m, w))
  }

  /** A listing is as long as the count of matching rows. */
  lemma ListingLength(rows: seq<User>, m: UserMap, w: Where)
    requires IsOrderedListing(rows, m, w)
    ensures |rows| == |Matching(m, w)|
  {
    calc {
      |rows|;
      |multiset(rows)|;
      |multiset(Matching(m, w))|;
      |Matching(m, w)|;
    }
  }

  /** Each listed row is the stored row under its id and passes the filter. */
  lemma ListingRowsMatch(rows: seq<User>, m: UserMap, w: Where)
    requires KeysAreIds(m) && IsOrderedListing(rows, m, w)
    ensures forall i :: 0 <= i < |rows| ==> rows[i].id in m && m[rows[i].id] == rows[i] && Satisfies(rows[i], w)
  {
    forall i | 0 <= i < |rows|
      ensures rows[i].id in m && m[rows[i].id] == rows[i] && Satisfies(rows[i], w)
    {
      assert rows[i] in multiset(rows);
      assert rows[i] in Matching(m, w);
    }
  }

  /** Each stored row that passes the filter is listed. */
  lemma ListingComplete(rows: seq<User>, m: UserMap, w: Where)
    requires IsOrderedListing(rows, m, w)
    ensures forall k :: k in m && Satisfies(m[k], w) ==> m[k] in rows
  {
    forall k | k in m && Satisfies(m[k], w)
      ensures m[k] in rows
    {
      assert m[k] in Matching(m, w);
      assert m[k] in multiset(Matching(m, w));
    }
  }

  lemma RepeatedRowCountsTwice(rows: seq<User>, i: int, j: int)
    requires 0 <= i < j < |rows| && rows[i] == rows[j]
    ensures multiset(rows)[rows[i]] >= 2
  {
    assert rows == rows[..j] + rows[j..];
    assert rows[i] in rows[..j];
    assert rows[j] in rows[j..];
  }

  /** No row is listed twice. */
  lemma ListingHasNoDuplicates(rows: seq<User>, m: UserMap, w: Where)
    requires IsOrderedListing(rows, m, w)
    ensures forall i, j :: 0 <= i < j < |rows| ==> rows[i] != rows[j]
  {
    forall i, j | 0 <= i < j < |rows|
      ensures rows[i] != rows[j]
    {
      if rows[i] == rows[j] {
        RepeatedRowCountsTwice(rows, i, j);
        assert false;
      }
    }
  }

  /** Counts the matching rows one key at a time. */
  method CountMatching(m: UserMap, w: Where) returns (n: nat)
    requires KeysAreIds(m)
    ensures n == |Matching(m, w)|
  {
    n := 0;
    var remaining := m.Keys;
    ghost var seen: set<string> := {};
    while remaining != {}
      invariant remaining <= m.Keys && seen == m.Keys - remaining
      invariant n == |MatchingIn(m, seen, w)|
      decreases |remaining|
    {
      var k :| k in remaining;
      CountGrows(m, seen, k, w);
      if Satisfies(m[k], w) {
        n := n + 1;
      }
      remaining := remaining - {k};
      seen := seen + {k};
    }
    assert seen == m.Keys;
  }

  /** Lists the matching rows newest first, inserting them one key at a time. */
  method SortedMatches(m: UserMap, w: Where) returns (sorted: seq<User>)
    requires KeysAreIds(m)
    ensures IsOrderedListing(sorted, m, w)
  {
    sorted := [];
    var remaining := m.Keys;
    ghost var seen: set<string> := {};
    while remaining != {}
      invariant remaining <= m.Keys && seen == m.Keys - remaining
      invariant NewestFirst(sorted)
      invariant multiset(sorted) == multiset(MatchingIn(m, seen, w))
      decreases |remaining|
    {
      var k :| k in remaining;
      ListingGrows(m, seen, k, w, sorted);
      if Satisfies(m[k], w) {
        sorted := InsertNewestFirst(sorted, m[k]);
      }
      remaining := remaining - {k};
      seen := seen + {k};
    }
    assert seen == m.Keys;
  }

  // ----- the table -----

  class UserStore {
    var users: UserMap
    /** How many writes (`update` or `delete`) have been issued to the table. */
    ghost var writes: nat

    ghost predicate Valid()
      reads this
    {
      TableInvariant(users)
    }

    constructor (initial: UserMap)
      requires TableInvariant(initial)
      ensures Valid() && users == initial && writes == 0
    {
      users := initial;
      writes := 0;
    }

    /** `user.findUnique({ where: { id } })` */
    method FindUnique(id: string) returns (found: Option<User>)
      ensures found.Some? <==> id in users
      ensures found.Some? ==> found.value == users[id]
    {
      if id in users {
        found := Some(users[id]);
      } else {
        found := None;
      }
    }

    /** `user.count({ where })` */
    method Count(w: Where) returns (n: nat)
      requires Valid()
      ensures n == |Matching(users, w)|
    {
      n := CountMatching(users, w);
    }

    /** `user.findMany({ skip, take, where, orderBy: { createdAt: 'desc' } })` */
    method FindMany(w: Where, skip: nat, take: nat) returns (rows: seq<User>, ghost listing: seq<User>)
      requires Valid()
      ensures IsOrderedListing(listing, users, w)
      ensures rows == Window(listing, skip, take)
    {
      var sorted := SortedMatches(users, w);
      listing := sorted;
      rows := Window(sorted, skip, take);
    }

    /** `user.update({ where: { id }, data })`; `fault` is a failure of the store itself. */
    method Update(id: string, patch: UserPatch, fault: Option<DbError>) returns (r: Result<User, DbError>)
      requires Valid()
      modifies this
      ensures Valid() && writes == old(writes) + 1
      ensures fault.Some? ==> r == Err(fault.value) && users == old(users)
      ensures fault.None? && id !in old(users) ==> r == Err(DbError(RecordMissing, None)) && users == old(users)
      ensures fault.None? && id in old(users) ==>
                var u := ApplyPatch(old(users)[id], patch);
                var c := Clash(old(users), id, u);
                if c.Some? then r == Err(DbError(UniqueViolation, c)) && users == old(users)
                else r == Ok(u) && users == old(users)[id := u]
    {
      writes := writes + 1;
      if fault.Some? {
        return Err(fault.value);
      }
      if id !in users {
        return Err(DbError(RecordMissing, None));
      }
      var u := ApplyPatch(users[id], patch);
      var c := Clash(users, id, u);
      if c.Some? {
        return Err(DbError(UniqueViolation, c));
      }
      PatchKeepsInvariant(users, id, patch);
      users := users[id := u];
      r := Ok(u);
    }

    /** `user.delete({ where: { id } })`; `fault` is a failure of the store itself. */
    method Delete(id: string, fault: Option<DbError>) returns (r: Result<User, DbError>)
      requires Valid()
      modifies this
      ensures Valid() && writes == old(writes) + 1
      ensures fault.Some? ==> r == Err(fault.value) && users == old(users)
      ensures fault.None? && id !in old(users) ==> r == Err(DbError(RecordMissing, None)) && users == old(users)
      ensures fault.None? && id in old(users) ==> r == Ok(old(users)[id]) && users == old(users) - {id}
    {
      writes := writes + 1;
      if fault.Some? {
        return Err(fault.value);
      }
      if id !in users {
        return Err(DbError(RecordMissing, None));
      }
      r := Ok(users[id]);
      DeleteKeepsInvariant(users, id);
      users := users - {id};
    }
  }
}
