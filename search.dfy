/**
 * The `where` clause of the user listing: no clause without a search term,
 * otherwise an OR over four fields, three of them compared case-insensitively
 * and the phone number case-sensitively.
 */
module Search {
  import opened Wrappers
  import opened Users

  /** ASCII case folding, standing in for the database's insensitive mode. */
  function LowerChar(c: char): char
  {
    if 'A' <= c <= 'Z' then (c as int + 32) as char else c
  }

  function Lower(s: string): (r: string)
    ensures |r| == |s|
    ensures forall i :: 0 <= i < |s| ==> r[i] == LowerChar(s[i])
  {
    seq(|s|, i requires 0 <= i < |s| => LowerChar(s[i]))
  }

  /** `needle` occurs in `hay` starting at position `i`. */
  ghost predicate OccursAt(hay: string, needle: string, i: int)
  {
    0 <= i && i + |needle| <= |hay| && hay[i..i + |needle|] == needle
  }

  ghost predicate IsSubstring(needle: string, hay: string)
  {
    exists i :: OccursAt(hay, needle, i)
  }

  /** `contains`: does `needle` occur somewhere in `hay`? */
  function Contains(hay: string, needle: string): (r: bool)
    ensures r ==> |needle| <= |hay|
    ensures needle == [] ==> r
    decreases |hay|
  {
    if |needle| > |hay| then false
    else if needle <= hay then true
    else Contains(hay[1..], needle)
  }

  lemma {:induction false} ContainsIsSubstring(hay: string, needle: string)
    ensures Contains(hay, needle) <==> IsSubstring(needle, hay)
    decreases |hay|
  {
    if |needle| > |hay| {
      assert forall i :: !OccursAt(hay, needle, i);
    } else if needle <= hay {
      assert OccursAt(hay, needle, 0);
    } else {
      ContainsIsSubstring(hay[1..], needle);
      if IsSubstring(needle, hay[1..]) {
        var i :| OccursAt(hay[1..], needle, i);
        assert hay[1..][i..i + |needle|] == hay[i + 1..i + 1 + |needle|];
        assert OccursAt(hay, needle, i + 1);
      }
      if IsSubstring(needle, hay) {
        var i :| OccursAt(hay, needle, i);
        assert i != 0;
        assert hay[1..][i - 1..i - 1 + |needle|] == hay[i..i + |needle|];
        assert OccursAt(hay[1..], needle, i - 1);
      }
    }
  }

  /** `contains` with `mode: 'insensitive'`. */
  predicate ContainsInsensitive(hay: string, needle: string): (r: bool)
    ensures r <==> IsSubstring(Lower(needle), Lower(hay))
  {
    ContainsIsSubstring(Lower(hay), Lower(needle));
    Contains(Lower(hay), Lower(needle))
  }

  /** The filter built from the query's search term. */
  datatype Where = MatchAll | AnyField(term: string)

  /** `search ? { OR: [...] } : {}`; an empty string is falsy, so it builds no filter. */
  function BuildWhere(search: Option<string>): (w: Where)
    ensures w.MatchAll? <==> (search.None? || search.value == "")
    ensures w.AnyField? ==> w.term == search.value
  {
    if search.Some? && search.value != "" then AnyField(search.value) else MatchAll
  }

  /** The OR of the four field tests; a match needs a field at least as long as the term. */
  predicate MatchesTerm(u: User, term: string): (r: bool)
    ensures r ==> |term| <= |u.firstName| || |term| <= |u.lastName|
                  || |term| <= |u.email| || |term| <= |u.phoneNumber|
  {
    || ContainsInsensitive(u.firstName, term)
    || ContainsInsensitive(u.lastName, term)
    || ContainsInsensitive(u.email, term)
    || Contains(u.phoneNumber, term)
  }

  /** Whether a row passes the filter; only a non-empty term can exclude a row. */
  predicate Satisfies(u: User, w: Where): (r: bool)
    ensures !r ==> w.AnyField? && w.term != ""
  {
    match w
    case MatchAll => true
    case AnyField(term) => MatchesTerm(u, term)
  }

  /** Without a search term (absent or empty) every row matches. */
  lemma NoTermMatchesEveryRow(search: Option<string>, u: User)
    requires search.None? || search.value == ""
    ensures Satisfies(u, BuildWhere(search))
  {
  }

  /** The search rule in terms of substrings: which fields, and which of them ignore case. */
  lemma SearchRule(u: User, s: string)
    requires s != ""
    ensures Satisfies(u, BuildWhere(Some(s))) <==>
              || IsSubstring(Lower(s), Lower(u.firstName))
              || IsSubstring(Lower(s), Lower(u.lastName))
              || IsSubstring(Lower(s), Lower(u.email))
              || IsSubstring(s, u.phoneNumber)
  {
    ContainsIsSubstring(u.phoneNumber, s);
  }

  /** The filter for an empty term would have matched every row anyway, so skipping it changes nothing. */
  lemma EmptyTermMatchesEveryRow(u: User)
    ensures MatchesTerm(u, "")
  {
  }

  /** An exact-case occurrence is also a case-insensitive one. */
  lemma ExactImpliesInsensitive(hay: string, needle: string)
    requires Contains(hay, needle)
    ensures ContainsInsensitive(hay, needle)
  {
    ContainsIsSubstring(hay, needle);
    var i :| OccursAt(hay, needle, i);
    assert Lower(hay)[i..i + |needle|] == Lower(needle) by {
      forall j | 0 <= j < |needle|
        ensures Lower(hay)[i..i + |needle|][j] == Lower(needle)[j]
      {
        assert hay[i..i + |needle|][j] == needle[j];
      }
    }
    assert OccursAt(Lower(hay), Lower(needle), i);
  }

  /** The phone number is compared with case: a term differing only in case finds the other fields, not the phone. */
  lemma PhoneMatchKeepsCase()
    ensures ContainsInsensitive("EXT7", "ext7") && !Contains("EXT7", "ext7")
  {
    assert Lower("EXT7") == "ext7";
    assert Lower("ext7") == "ext7";
    assert "ext7" <= "ext7";
    assert "EXT7"[0] != "ext7"[0];
  }
}
