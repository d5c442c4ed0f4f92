/** The user filter of the admin dashboard:
    `SELECT id, username, is_admin FROM users WHERE username LIKE '%' || q || '%'`,
    run only when the `search` argument is present and non-empty. SQLite's
    built-in LIKE folds case for ASCII letters only. */
module UserSearch {
  import opened Records
  import opened Sequences

  function LowerChar(c: char): (r: char)
    ensures 'A' <= c <= 'Z' ==> 'a' <= r <= 'z'
    ensures !('A' <= c <= 'Z') ==> r == c
  {
    if 'A' <= c <= 'Z' then (c as int + 32) as char else c
  }

  function UpperChar(c: char): (r: char)
    ensures 'a' <= c <= 'z' ==> 'A' <= r <= 'Z'
    ensures !('a' <= c <= 'z') ==> r == c
  {
    if 'a' <= c <= 'z' then (c as int - 32) as char else c
  }

  /** ASCII lower-casing; every other character is left as it is. */
  function Lower(s: string): (r: string)
    ensures |r| == |s|
    ensures forall i :: 0 <= i < |s| ==> r[i] == LowerChar(s[i])
  {
    if |s| == 0 then [] else [LowerChar(s[0])] + Lower(s[1..])
  }

  function Upper(s: string): (r: string)
    ensures |r| == |s|
    ensures forall i :: 0 <= i < |s| ==> r[i] == UpperChar(s[i])
  {
    if |s| == 0 then [] else [UpperChar(s[0])] + Upper(s[1..])
  }

  /** `needle` occurs in `hay` as a contiguous block. */
  predicate Contains(hay: string, needle: string)
  {
    needle <= hay || (|hay| > 0 && Contains(hay[1..], needle))
  }

  /** `needle` occurs in `hay` starting at offset `i`. */
  predicate OccursAt(hay: string, needle: string, i: int)
  {
    0 <= i <= |hay| - |needle| && hay[i..i + |needle|] == needle
  }

  /** `Contains` finds an occurrence exactly when one exists at some offset. */
  lemma {:induction false} ContainsIff(hay: string, needle: string)
    ensures Contains(hay, needle) <==> exists i :: OccursAt(hay, needle, i)
  {
    if needle <= hay {
      assert OccursAt(hay, needle, 0);
    } else if |hay| == 0 {
      assert forall i :: !OccursAt(hay, needle, i);
    } else {
      ContainsIff(hay[1..], needle);
      if exists i :: OccursAt(hay, needle, i) {
        var i :| OccursAt(hay, needle, i);
        assert i != 0;
        assert OccursAt(hay[1..], needle, i - 1);
      }
      if exists j :: OccursAt(hay[1..], needle, j) {
        var j :| OccursAt(hay[1..], needle, j);
        assert OccursAt(hay, needle, j + 1);
      }
    }
  }

  /** `username LIKE '%' || query || '%'`, with `%` and `_` in the query read literally. */
  predicate LikeContains(username: string, query: string)
  {
    Contains(Lower(username), Lower(query))
  }

  function Matches(query: string): User -> bool
  {
    (u: User) => LikeContains(u.username, query)
  }

  /** The `users` list the admin dashboard shows, in table order. */
  function SearchUsers(users: seq<User>, search: Option<string>): (r: seq<User>)
    ensures search == None || search == Some("") ==> r == users
    ensures search.Some? && search.value != "" ==>
      forall u :: u in r <==> u in users && LikeContains(u.username, search.value)
  {
    if search.Some? && search.value != "" then Filter(users, Matches(search.value)) else users
  }

  /** The pattern `'%%'` matches every username, so skipping the WHERE clause
      for an empty query gives the same list as running it would. */
  lemma EmptyQueryMatchesAll(users: seq<User>)
    ensures Filter(users, Matches("")) == users
  {
    forall u | u in users ensures Matches("")(u) {
      assert [] <= Lower(u.username);
    }
    FilterAll(users, Matches(""));
  }

  /** The search keeps table order. */
  lemma SearchUsersStable(a: seq<User>, b: seq<User>, search: Option<string>)
    ensures SearchUsers(a + b, search) == SearchUsers(a, search) + SearchUsers(b, search)
  {
    if search.Some? && search.value != "" {
      FilterAppend(a, b, Matches(search.value));
    }
  }

  lemma LowerOfUpper(s: string)
    ensures Lower(Upper(s)) == Lower(s)
  {
    assert forall i :: 0 <= i < |s| ==> Lower(Upper(s))[i] == Lower(s)[i];
  }

  lemma LowerIdempotent(s: string)
    ensures Lower(Lower(s)) == Lower(s)
  {
    assert forall i :: 0 <= i < |s| ==> Lower(Lower(s))[i] == Lower(s)[i];
  }

  /** The match depends on the query and the username only through their
      ASCII lower-cased forms: any change of ASCII case leaves it alone. */
  lemma MatchDependsOnlyOnLowered(u1: string, u2: string, q1: string, q2: string)
    requires Lower(u1) == Lower(u2) && Lower(q1) == Lower(q2)
    ensures LikeContains(u1, q1) == LikeContains(u2, q2)
  {
  }

  /** Upper- or lower-casing the whole query, or upper-casing the whole
      username, does not change the match. */
  lemma CaseInsensitive(username: string, query: string)
    ensures LikeContains(username, Upper(query)) == LikeContains(username, query)
    ensures LikeContains(username, Lower(query)) == LikeContains(username, query)
    ensures LikeContains(Upper(username), query) == LikeContains(username, query)
  {
    LowerOfUpper(query);
    LowerIdempotent(query);
    LowerOfUpper(username);
  }

  lemma UpperQueryMatchesLowerName()
    ensures LikeContains("alice01", "ALICE")
  {
    assert Lower("ALICE") == "alice";
    assert Lower("alice01") == "alice01";
    assert Lower("ALICE") <= Lower("alice01");
  }

  /** Letters outside ASCII are compared exactly: `É` does not match `é`. */
  lemma NonAsciiCaseMatters()
    ensures !LikeContains("é", "É")
  {
    assert Lower("é") == "é";
    assert Lower("É") == "É";
    assert !Contains([], "É");
  }
}
