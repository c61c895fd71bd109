/** User administration: creation with a unique e-mail and a forced
    ROLE_USER, lookup by id, the listing filter, and locking or unlocking
    an account (an administrator may not lock their own). */
module UserService {
  import opened Wrappers
  import opened Entities
  import opened Ledger

  /** A validated creation request; the role it carries is ignored. */
  datatype CreateUserRequest = CreateUserRequest(email: string, password: string, role: Role)

  datatype UserResponse = UserResponse(id: UserId, email: string, role: Role)

  function ToUserResponse(id: UserId, u: User): (r: UserResponse)
    ensures r.id == id && r.email == u.email && r.role == u.role
  {
    UserResponse(id, u.email, u.role)
  }

  /** Some stored user has exactly this e-mail. */
  predicate EmailTaken(users: map<UserId, User>, email: string)
  {
    exists k :: k in users && users[k].email == email
  }

  // -------------------------------------------------------------- createUser

  /** `createUser`. `encode` is the password encoder and `nonLockedAtStart`
      the lock flag a fresh `User` starts with, both supplied from outside. */
  function CreateUser(st: Store, req: CreateUserRequest, encode: string -> string, nonLockedAtStart: bool)
    : (r: Result<(Store, UserResponse), Error>)
    requires WellFormed(st)
    ensures EmailTaken(st.users, req.email) <==> r == Failure(DuplicateEmail)
    ensures r.Failure? ==> r == Failure(DuplicateEmail)
    ensures r.Success? ==>
              var (st', resp) := r.value;
              var id := st.nextUserId;
              && id !in st.users
              && st'.users.Keys == st.users.Keys + {id}
              && (forall k :: k in st.users ==> st'.users[k] == st.users[k])
              && st'.users[id] == User(Some(id), req.email, encode(req.password), ROLE_USER, nonLockedAtStart)
              && st'.cards == st.cards && st'.transactions == st.transactions
              && st'.nextUserId == id + 1 && st'.nextCardId == st.nextCardId && st'.nextTxId == st.nextTxId
              && resp == UserResponse(id, req.email, ROLE_USER)
              && WellFormed(st')
  {
    match FindUserByEmail(st.users, Some(req.email))
    case Some(_) => Failure(DuplicateEmail)
    case None =>
      var id := st.nextUserId;
      var user := User(Some(id), req.email, encode(req.password), ROLE_USER, nonLockedAtStart);
      var st' := st.(users := st.users[id := user], nextUserId := id + 1);
      assert EmailsUnique(st'.users);
      Success((st', ToUserResponse(id, user)))
  }

  // ------------------------------------------------------------- getUserById

  function GetUserById(st: Store, id: UserId): (r: Result<UserResponse, Error>)
    ensures id !in st.users <==> r == Failure(NotFound(UserRecord))
    ensures r.Success? <==> id in st.users
    ensures r.Success? ==> r.value == ToUserResponse(id, st.users[id])
  {
    if id !in st.users then Failure(NotFound(UserRecord))
    else Success(ToUserResponse(id, st.users[id]))
  }

  // -------------------------------------------------------- updateUserStatus

  /** `updateUserStatus`: the user must exist; a caller whose name is the
      user's e-mail may not lock that account (unlocking it is allowed);
      otherwise the account is unlocked exactly when `locked` is false. */
  function UpdateUserStatus(st: Store, id: UserId, locked: bool, auth: Option<Authentication>)
    : (r: Result<(Store, UserResponse), Error>)
    requires WellFormed(st)
    ensures id !in st.users <==> r == Failure(NotFound(UserRecord))
    ensures id in st.users && locked && auth.Some? && auth.value.name == Some(st.users[id].email) <==>
              r == Failure(ValidationFailed(SelfLock))
    ensures r.Success? <==>
              id in st.users && !(locked && auth.Some? && auth.value.name == Some(st.users[id].email))
    ensures r.Success? ==>
              var (st', resp) := r.value;
              && id in st.users
              && st'.users.Keys == st.users.Keys
              && st'.users[id] == st.users[id].(accountNonLocked := !locked)
              && (forall k :: k in st.users && k != id ==> st'.users[k] == st.users[k])
              && st'.cards == st.cards && st'.transactions == st.transactions
              && st'.nextUserId == st.nextUserId && st'.nextCardId == st.nextCardId
              && st'.nextTxId == st.nextTxId
              && resp == ToUserResponse(id, st.users[id])
              && WellFormed(st')
  {
    if id !in st.users then Failure(NotFound(UserRecord))
    else
      var user := st.users[id];
      if auth.Some? && auth.value.name == Some(user.email) && locked then Failure(ValidationFailed(SelfLock))
      else
        var user' := user.(accountNonLocked := !locked);
        var st' := st.(users := st.users[id := user']);
        assert EmailsUnique(st'.users);
        Success((st', ToUserResponse(id, user')))
  }

  // ----------------------------------------------------------------- LIKE

  /** SQL `LIKE`: `%` matches any run of characters, `_` any one character.
      When `escaping` holds, a backslash makes the character after it
      literal; otherwise a backslash is an ordinary character. */
  function Like(s: string, p: string, escaping: bool): bool
    decreases |s| + |p|
  {
    if p == [] then s == []
    else if escaping && p[0] == '\\' && |p| >= 2 then s != [] && s[0] == p[1] && Like(s[1..], p[2..], escaping)
    else if p[0] == '%' then Like(s, p[1..], escaping) || (s != [] && Like(s[1..], p, escaping))
    else if p[0] == '_' then s != [] && Like(s[1..], p[1..], escaping)
    else s != [] && s[0] == p[0] && Like(s[1..], p[1..], escaping)
  }

  predicate StartsWith(s: string, n: string)
  {
    |n| <= |s| && s[..|n|] == n
  }

  /** `n` occurs in `s` as a contiguous piece. */
  predicate Contains(s: string, n: string)
  {
    exists i :: 0 <= i <= |s| && StartsWith(s[i..], n)
  }

  predicate IsWildcard(c: char)
  {
    c == '%' || c == '_'
  }

  predicate WildcardFree(n: string)
  {
    forall i :: 0 <= i < |n| ==> !IsWildcard(n[i])
  }

  /** The characters `LIKE ... ESCAPE '\'` treats specially. */
  predicate NeedsEscape(c: char)
  {
    IsWildcard(c) || c == '\\'
  }

  /** Put a backslash before every special character. */
  function Escape(n: string): (r: string)
    ensures |r| >= |n|
  {
    if n == [] then []
    else (if NeedsEscape(n[0]) then ['\\', n[0]] else [n[0]]) + Escape(n[1..])
  }

  /** A lone `%` matches anything. */
  lemma {:induction false} LikeAnyTail(s: string, escaping: bool)
    ensures Like(s, "%", escaping)
    decreases |s|
  {
    if s != [] {
      LikeAnyTail(s[1..], escaping);
    }
  }

  /** A leading `%` lets the rest of the pattern start anywhere. */
  lemma {:induction false} LikeLeadingPercent(s: string, q: string, escaping: bool)
    ensures Like(s, "%" + q, escaping) <==> exists i :: 0 <= i <= |s| && Like(s[i..], q, escaping)
    decreases |s|
  {
    var p := "%" + q;
    assert p[1..] == q;
    assert s[0..] == s;
    if s != [] {
      LikeLeadingPercent(s[1..], q, escaping);
      if exists i :: 0 <= i <= |s| && Like(s[i..], q, escaping) {
        var i :| 0 <= i <= |s| && Like(s[i..], q, escaping);
        if i > 0 {
          assert s[1..][i - 1..] == s[i..];
        }
      }
      if exists i :: 0 <= i <= |s[1..]| && Like(s[1..][i..], q, escaping) {
        var i :| 0 <= i <= |s[1..]| && Like(s[1..][i..], q, escaping);
        assert s[1..][i..] == s[i + 1..];
      }
    }
  }

  /** Without escaping, a wildcard-free pattern followed by `%` matches
      exactly the strings it is a prefix of. */
  lemma {:induction false} LikePrefix(s: string, n: string)
    requires WildcardFree(n)
    ensures Like(s, n + "%", false) <==> StartsWith(s, n)
    decreases |n|
  {
    if n == [] {
      assert n + "%" == "%";
      LikeAnyTail(s, false);
    } else {
      var p := n + "%";
      assert p[0] == n[0] && p[1..] == n[1..] + "%";
      assert !IsWildcard(n[0]);
      if s != [] {
        LikePrefix(s[1..], n[1..]);
        if |n| <= |s| {
          assert s[..|n|] == [s[0]] + s[1..][..|n| - 1];
          assert n == [n[0]] + n[1..];
        }
      }
    }
  }

  /** With escaping, the escaped text followed by `%` matches exactly the
      strings the text is a prefix of, whatever characters it holds. */
  lemma {:induction false} LikeEscapedPrefix(s: string, n: string)
    ensures Like(s, Escape(n) + "%", true) <==> StartsWith(s, n)
    decreases |n|
  {
    if n == [] {
      assert Escape(n) + "%" == "%";
      LikeAnyTail(s, true);
    } else {
      var p := Escape(n) + "%";
      var rest := Escape(n[1..]) + "%";
      if NeedsEscape(n[0]) {
        assert p == ['\\', n[0]] + rest;
        assert p[0] == '\\' && p[1] == n[0] && p[2..] == rest;
      } else {
        assert p == [n[0]] + rest;
        assert p[0] == n[0] && p[1..] == rest;
      }
      if s != [] {
        LikeEscapedPrefix(s[1..], n[1..]);
        if |n| <= |s| {
          assert s[..|n|] == [s[0]] + s[1..][..|n| - 1];
          assert n == [n[0]] + n[1..];
        }
      }
    }
  }

  /** `%text%` as written: a substring test only while the text holds no
      wildcard. */
  lemma WildcardFreeLikeIsContains(s: string, n: string)
    requires WildcardFree(n)
    ensures Like(s, "%" + n + "%", false) <==> Contains(s, n)
  {
    assert "%" + n + "%" == "%" + (n + "%");
    LikeLeadingPercent(s, n + "%", false);
    forall i | 0 <= i <= |s|
      ensures Like(s[i..], n + "%", false) <==> StartsWith(s[i..], n)
    {
      LikePrefix(s[i..], n);
    }
  }

  /** `%text%` with the text escaped: always a substring test. */
  lemma EscapedLikeIsContains(s: string, n: string)
    ensures Like(s, "%" + Escape(n) + "%", true) <==> Contains(s, n)
  {
    assert "%" + Escape(n) + "%" == "%" + (Escape(n) + "%");
    LikeLeadingPercent(s, Escape(n) + "%", true);
    forall i | 0 <= i <= |s|
      ensures Like(s[i..], Escape(n) + "%", true) <==> StartsWith(s[i..], n)
    {
      LikeEscapedPrefix(s[i..], n);
    }
  }

  // ------------------------------------------------------- the user filter

  /** The criteria of a user listing; a missing one does not filter. */
  datatype UserFilter = UserFilter(email: Option<string>, role: Option<Role>, locked: Option<bool>)

  /** `Character.isWhitespace`: the ASCII separators and controls it counts,
      and the Unicode space separators other than the no-break spaces. */
  predicate IsJavaWhitespace(c: char)
  {
    || c == ' ' || ('\t' <= c <= '\r') || ('\U{1C}' <= c <= '\U{1F}')
    || c == '\U{1680}' || ('\U{2000}' <= c <= '\U{2006}') || ('\U{2008}' <= c <= '\U{200A}')
    || c == '\U{2028}' || c == '\U{2029}' || c == '\U{205F}' || c == '\U{3000}'
  }

  /** `String.isBlank`. */
  predicate IsBlank(s: string)
  {
    forall i :: 0 <= i < |s| ==> IsJavaWhitespace(s[i])
  }

  function AsciiLower(c: char): (r: char)
    ensures 'A' <= c <= 'Z' ==> 'a' <= r <= 'z'
    ensures !('A' <= c <= 'Z') ==> r == c
  {
    if 'A' <= c <= 'Z' then (c as int + 32) as char else c
  }

  /** `toLowerCase` and SQL `lower`, on ASCII letters. */
  function Lower(s: string): (r: string)
    ensures |r| == |s|
    ensures forall i :: 0 <= i < |s| ==> r[i] == AsciiLower(s[i])
  {
    if s == [] then [] else [AsciiLower(s[0])] + Lower(s[1..])
  }

  /** The e-mail criterion is in force. */
  predicate EmailFilterActive(f: UserFilter)
  {
    f.email.Some? && !IsBlank(f.email.value)
  }

  /** The filter as written: the text goes into the LIKE pattern as it is,
      so a `%` or `_` in it acts as a wildcard. */
  predicate UserMatchesAsWritten(u: User, f: UserFilter)
  {
    && (EmailFilterActive(f) ==> Like(Lower(u.email), "%" + Lower(f.email.value) + "%", false))
    && (f.role.Some? ==> u.role == f.role.value)
    && (f.locked.Some? ==> u.accountNonLocked == !f.locked.value)
  }

  /** The filter as meant: the text is escaped before it goes into the
      pattern, so it is matched literally. */
  predicate UserMatches(u: User, f: UserFilter)
  {
    && (EmailFilterActive(f) ==> Like(Lower(u.email), "%" + Escape(Lower(f.email.value)) + "%", true))
    && (f.role.Some? ==> u.role == f.role.value)
    && (f.locked.Some? ==> u.accountNonLocked == !f.locked.value)
  }

  /** The meant filter is a case-insensitive substring test on the e-mail,
      an equality test on the role and a negated test on the lock flag. */
  lemma UserMatchesMeaning(u: User, f: UserFilter)
    ensures UserMatches(u, f) <==>
              && (EmailFilterActive(f) ==> Contains(Lower(u.email), Lower(f.email.value)))
              && (f.role.Some? ==> u.role == f.role.value)
              && (f.locked.Some? ==> u.accountNonLocked == !f.locked.value)
  {
    if EmailFilterActive(f) {
      EscapedLikeIsContains(Lower(u.email), Lower(f.email.value));
    }
  }

  /** Lower-casing neither creates nor removes wildcards. */
  lemma LowerKeepsWildcardFree(n: string)
    ensures WildcardFree(Lower(n)) <==> WildcardFree(n)
  {
    if !WildcardFree(n) {
      var i :| 0 <= i < |n| && IsWildcard(n[i]);
      assert Lower(n)[i] == n[i];
    }
    if !WildcardFree(Lower(n)) {
      var i :| 0 <= i < |n| && IsWildcard(Lower(n)[i]);
      assert Lower(n)[i] == n[i];
    }
  }

  /** As long as the e-mail text holds no `%` or `_`, the filter as written
      and the filter as meant agree on every user. */
  lemma AsWrittenAgreesWithoutWildcards(u: User, f: UserFilter)
    requires EmailFilterActive(f) ==> WildcardFree(f.email.value)
    ensures UserMatchesAsWritten(u, f) <==> UserMatches(u, f)
  {
    if EmailFilterActive(f) {
      LowerKeepsWildcardFree(f.email.value);
      WildcardFreeLikeIsContains(Lower(u.email), Lower(f.email.value));
      EscapedLikeIsContains(Lower(u.email), Lower(f.email.value));
    }
  }

  /** A text holding a character the string lacks does not occur in it. */
  lemma {:induction false} MissingCharNotContained(s: string, n: string, j: nat)
    requires j < |n|
    requires forall i :: 0 <= i < |s| ==> s[i] != n[j]
    ensures !Contains(s, n)
  {
    forall i | 0 <= i <= |s|
      ensures !StartsWith(s[i..], n)
    {
      if i + j < |s| {
        assert s[i..][j] == s[i + j];
      }
    }
  }

  /** Text without capital letters is its own lower case. */
  lemma LowerIdentity(s: string)
    requires forall i :: 0 <= i < |s| ==> !('A' <= s[i] <= 'Z')
    ensures Lower(s) == s
  {
  }

  /** The as-written pattern for "a_b@c" matches "axb@c". */
  lemma AsWrittenPatternHits()
    ensures Like("axb@c", "%a_b@c%", false)
  {
    var tail := "b@c";
    LikePrefix(tail, tail);
    assert "a_b@c%"[1..] == "_b@c%" && "_b@c%"[1..] == tail + "%";
    assert "axb@c"[1..][1..] == tail;
    assert Like("axb@c"[1..], "_b@c%", false);
    assert Like("axb@c", "a_b@c%", false);
    assert "%a_b@c%"[1..] == "a_b@c%";
  }

  /** The user and the search of the counterexample below. */
  const SampleUser: User := User(Some(1), "axb@c", "", ROLE_USER, true)
  const SampleFilter: UserFilter := UserFilter(Some("a_b@c"), None, None)

  lemma SampleAsWrittenMatches()
    ensures UserMatchesAsWritten(SampleUser, SampleFilter)
  {
    LowerIdentity(SampleUser.email);
    LowerIdentity("a_b@c");
    assert !IsJavaWhitespace("a_b@c"[0]);
    assert "%" + "a_b@c" + "%" == "%a_b@c%";
    AsWrittenPatternHits();
  }

  /** A user whose lowercased e-mail lacks some character of the lowercased
      search text fails the literal filter. */
  lemma LiteralMissesAbsentChar(u: User, f: UserFilter, j: nat)
    requires EmailFilterActive(f) && j < |f.email.value|
    requires forall i :: 0 <= i < |u.email| ==> Lower(u.email)[i] != Lower(f.email.value)[j]
    ensures !UserMatches(u, f)
  {
    UserMatchesMeaning(u, f);
    MissingCharNotContained(Lower(u.email), Lower(f.email.value), j);
  }

  lemma SampleLiteralMisses()
    ensures !UserMatches(SampleUser, SampleFilter)
  {
    LowerIdentity(SampleUser.email);
    LowerIdentity("a_b@c");
    assert !IsJavaWhitespace("a_b@c"[0]);
    LiteralMissesAbsentChar(SampleUser, SampleFilter, 1);
  }

  /** A search for "a_b@c" finds the address "axb@c", which does not
      contain "a_b@c": the underscore acted as a wildcard. */
  lemma UnderscoreActsAsWildcard()
    ensures var u := User(Some(1), "axb@c", "", ROLE_USER, true);
            var f := UserFilter(Some("a_b@c"), None, None);
            UserMatchesAsWritten(u, f) && !UserMatches(u, f)
  {
    SampleAsWrittenMatches();
    SampleLiteralMisses();
  }

  // ---------------------------------------------------------------- listing

  /** The filter a listing applies: the corrected one when `literal`
      holds, the one as written otherwise. */
  predicate Selects(u: User, f: UserFilter, literal: bool)
  {
    if literal then UserMatches(u, f) else UserMatchesAsWritten(u, f)
  }

  /** `getAllUsers` without paging: the users the filter as written
      accepts, by ascending id. */
  function ListUsers(st: Store, f: UserFilter): (r: seq<UserResponse>)
    requires WellFormed(st)
    ensures forall i, j :: 0 <= i < j < |r| ==> r[i].id < r[j].id
    ensures forall k :: k in st.users ==>
              (UserMatchesAsWritten(st.users[k], f) <==> ToUserResponse(k, st.users[k]) in r)
  {
    ListUsersFrom(st.users, f, false, 0, st.nextUserId)
  }

  /** The listing with the e-mail text matched literally. */
  function ListUsersLiteral(st: Store, f: UserFilter): (r: seq<UserResponse>)
    requires WellFormed(st)
    ensures forall i, j :: 0 <= i < j < |r| ==> r[i].id < r[j].id
    ensures forall k :: k in st.users ==>
              (UserMatches(st.users[k], f) <==> ToUserResponse(k, st.users[k]) in r)
  {
    ListUsersFrom(st.users, f, true, 0, st.nextUserId)
  }

  function ListUsersFrom(users: map<UserId, User>, f: UserFilter, literal: bool, lo: nat, hi: nat)
    : (r: seq<UserResponse>)
    requires forall k :: k in users ==> k < hi
    decreases hi - lo
    ensures forall i :: 0 <= i < |r| ==> lo <= r[i].id < hi
    ensures forall i, j :: 0 <= i < j < |r| ==> r[i].id < r[j].id
    ensures forall i :: 0 <= i < |r| ==> r[i].id in users && Selects(users[r[i].id], f, literal)
                                         && r[i] == ToUserResponse(r[i].id, users[r[i].id])
    ensures forall k :: lo <= k && k in users && Selects(users[k], f, literal) ==>
              ToUserResponse(k, users[k]) in r
  {
    if lo >= hi then []
    else if lo in users && Selects(users[lo], f, literal) then
      [ToUserResponse(lo, users[lo])] + ListUsersFrom(users, f, literal, lo + 1, hi)
    else ListUsersFrom(users, f, literal, lo + 1, hi)
  }

  lemma {:induction false} ListUsersFromAgree(users: map<UserId, User>, f: UserFilter, lo: nat, hi: nat)
    requires forall k :: k in users ==> k < hi
    requires EmailFilterActive(f) ==> WildcardFree(f.email.value)
    ensures ListUsersFrom(users, f, false, lo, hi) == ListUsersFrom(users, f, true, lo, hi)
    decreases hi - lo
  {
    if lo < hi {
      ListUsersFromAgree(users, f, lo + 1, hi);
      if lo in users {
        AsWrittenAgreesWithoutWildcards(users[lo], f);
      }
    }
  }

  /** Without `%` or `_` in the e-mail text, the listing as written is the
      literal one, entry for entry. */
  lemma ListingsAgreeWithoutWildcards(st: Store, f: UserFilter)
    requires WellFormed(st)
    requires EmailFilterActive(f) ==> WildcardFree(f.email.value)
    ensures ListUsers(st, f) == ListUsersLiteral(st, f)
  {
    ListUsersFromAgree(st.users, f, 0, st.nextUserId);
  }

  /** A user the two filters disagree on is listed as written and missing
      from the literal listing; with `UnderscoreActsAsWildcard` this is the
      "axb@c" user under the search "a_b@c". */
  lemma ListingsDisagreeOn(st: Store, f: UserFilter, k: UserId)
    requires WellFormed(st) && k in st.users
    requires UserMatchesAsWritten(st.users[k], f) && !UserMatches(st.users[k], f)
    ensures ToUserResponse(k, st.users[k]) in ListUsers(st, f)
    ensures ToUserResponse(k, st.users[k]) !in ListUsersLiteral(st, f)
  {
  }

  /** The sample store holding only the "axb@c" user. */
  lemma UnderscoreListsUser()
    ensures var st := Store(map[1 := SampleUser], map[], map[], 2, 0, 0);
            && WellFormed(st)
            && ToUserResponse(1, SampleUser) in ListUsers(st, SampleFilter)
            && ToUserResponse(1, SampleUser) !in ListUsersLiteral(st, SampleFilter)
  {
    var st := Store(map[1 := SampleUser], map[], map[], 2, 0, 0);
    SampleAsWrittenMatches();
    SampleLiteralMisses();
    ListingsDisagreeOn(st, SampleFilter, 1);
  }

  // ---------------------------------------------------------------- partners

  /** Creating a user and reading it back gives the request's e-mail with
      ROLE_USER; a second creation with the same e-mail is refused. */
  lemma CreateThenGetAndRecreate(st: Store, req: CreateUserRequest, encode: string -> string, nl: bool,
                                 req2: CreateUserRequest, nl2: bool)
    requires WellFormed(st)
    requires CreateUser(st, req, encode, nl).Success?
    requires req2.email == req.email
    ensures var (st', resp) := CreateUser(st, req, encode, nl).value;
            && GetUserById(st', resp.id) == Success(UserResponse(resp.id, req.email, ROLE_USER))
            && CreateUser(st', req2, encode, nl2) == Failure(DuplicateEmail)
  {
    var (st', resp) := CreateUser(st, req, encode, nl).value;
    assert st'.users[resp.id].email == req2.email;
  }

  /** Setting the same lock state twice is setting it once, and afterwards
      the user is exactly what a listing by that lock state finds. */
  lemma UpdateStatusIdempotentAndListed(st: Store, id: UserId, locked: bool, auth: Option<Authentication>)
    requires WellFormed(st)
    requires UpdateUserStatus(st, id, locked, auth).Success?
    ensures var (st', _) := UpdateUserStatus(st, id, locked, auth).value;
            && UpdateUserStatus(st', id, locked, auth).Success?
            && UpdateUserStatus(st', id, locked, auth).value.0 == st'
            && UserMatchesAsWritten(st'.users[id], UserFilter(None, None, Some(locked)))
  {
    var (st', _) := UpdateUserStatus(st, id, locked, auth).value;
    assert st'.users[id := st'.users[id].(accountNonLocked := !locked)] == st'.users;
  }
}
