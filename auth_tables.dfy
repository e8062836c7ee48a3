/** The two database tables that web/src/lib/supabase.ts writes: `magic_tokens`
    (createMagicToken, verifyMagicToken) and `users` (getOrCreateUser). Each table is
    an in-memory sequence of rows; a Supabase `select(...).single()` succeeds only when
    exactly one row matches. The clock, the random UUID and the outcome of an insert
    are parameters. */
module AuthTables {
  import opened Text

  /** Tokens expire 15 minutes after issuance (milliseconds). */
  const TokenLifetimeMs: int := 15 * 60 * 1000

  datatype MagicToken = MagicToken(
    id: nat,
    email: string,
    token: string,
    appId: Option<string>,
    expiresAt: int,
    usedAt: Option<int>,
    createdAt: int)

  /** What a successful verification hands back: `{ email, appId }`. */
  datatype Redemption = Redemption(email: string, appId: Option<string>)

  /** The row filter of verifyMagicToken: same token, `used_at` null, `expires_at` after now. */
  predicate Redeemable(row: MagicToken, token: string, now: int)
  {
    row.token == token && row.usedAt.None? && row.expiresAt > now
  }

  /** Indices of the rows the verification query selects, in table order. */
  function Matching(rows: seq<MagicToken>, token: string, now: int): (ks: seq<nat>)
    ensures forall j :: 0 <= j < |ks| ==> ks[j] < |rows| && Redeemable(rows[ks[j]], token, now)
    ensures forall i :: 0 <= i < |rows| && Redeemable(rows[i], token, now) ==> i in ks
    ensures forall j, j' :: 0 <= j < j' < |ks| ==> ks[j] < ks[j']
  {
    if rows == [] then []
    else
      var ks := Matching(rows[..|rows| - 1], token, now);
      if Redeemable(rows[|rows| - 1], token, now) then ks + [|rows| - 1] else ks
  }

  /** `crypto.randomUUID().replace(/-/g, '')`: every '-' removed, everything else kept in order. */
  function StripDashes(s: string): (r: string)
    ensures '-' !in r && |r| <= |s|
  {
    if s == [] then []
    else (if s[0] == '-' then [] else [s[0]]) + StripDashes(s[1..])
  }

  /** A string without dashes comes back unchanged. */
  lemma {:induction false} StripDashesKeepsDashFree(s: string)
    requires '-' !in s
    ensures StripDashes(s) == s
    decreases |s|
  {
    if s != [] {
      assert '-' !in s[1..];
      StripDashesKeepsDashFree(s[1..]);
    }
  }

  /** Every character other than '-' is kept as often as it occurs. */
  lemma {:induction false} StripDashesCounts(s: string)
    ensures multiset(StripDashes(s)) == multiset(s)['-' := 0]
    decreases |s|
  {
    if s != [] {
      assert s == [s[0]] + s[1..];
      StripDashesCounts(s[1..]);
    }
  }

  /** Dashes are dropped in place: the other characters keep their order. */
  lemma {:induction false} StripDashesAppend(a: string, b: string)
    ensures StripDashes(a + b) == StripDashes(a) + StripDashes(b)
    decreases |a|
  {
    if a == [] {
      assert a + b == b;
    } else {
      var head := if a[0] == '-' then [] else [a[0]];
      assert (a + b)[0] == a[0] && (a + b)[1..] == a[1..] + b;
      assert StripDashes(a + b) == head + StripDashes(a[1..] + b);
      StripDashesAppend(a[1..], b);
      assert head + (StripDashes(a[1..]) + StripDashes(b)) == (head + StripDashes(a[1..])) + StripDashes(b);
    }
  }

  predicate DistinctIds(rows: seq<MagicToken>)
  {
    forall i, j :: 0 <= i < j < |rows| ==> rows[i].id != rows[j].id
  }

  class MagicTokenTable {
    var rows: seq<MagicToken>
    var nextId: nat

    ghost predicate Valid()
      reads this
    {
      DistinctIds(rows) && forall i :: 0 <= i < |rows| ==> rows[i].id < nextId
    }

    constructor ()
      ensures Valid() && rows == []
    {
      rows := [];
      nextId := 0;
    }

    /** createMagicToken: insert `{email, token, app_id, expires_at = now + 15 min}` and return the
        token, or return null (and insert nothing) when the insert fails. */
    method CreateMagicToken(email: string, appId: Option<string>, uuid: string, now: int, insertOk: bool)
      returns (token: Option<string>)
      requires Valid()
      modifies this
      ensures Valid()
      ensures !insertOk ==> token.None? && rows == old(rows)
      ensures insertOk ==>
        && token == Some(StripDashes(uuid))
        && |rows| == |old(rows)| + 1 && rows[..|old(rows)|] == old(rows)
        && var row := rows[|old(rows)|];
           row.email == email && row.token == StripDashes(uuid) && row.appId == appId
           && row.expiresAt == now + TokenLifetimeMs && row.usedAt.None? && row.createdAt == now
    {
      var t := StripDashes(uuid);
      if !insertOk {
        return None;
      }
      var row := MagicToken(nextId, email, t, appId, now + TokenLifetimeMs, None, now);
      rows := rows + [row];
      nextId := nextId + 1;
      token := Some(t);
    }

    /** verifyMagicToken: when exactly one stored row has this token, is unused and has not
        expired, mark it used at `now` and return its email and app id; otherwise return null
        and change nothing. */
    method VerifyMagicToken(token: string, now: int) returns (r: Option<Redemption>)
      requires Valid()
      modifies this
      ensures Valid() && nextId == old(nextId)
      ensures r.Some? <==> |Matching(old(rows), token, now)| == 1
      ensures r.None? ==> rows == old(rows)
      ensures r.Some? ==>
        var k := Matching(old(rows), token, now)[0];
        && rows == old(rows)[k := old(rows)[k].(usedAt := Some(now))]
        && r.value == Redemption(old(rows)[k].email, old(rows)[k].appId)
    {
      var ks := Matching(rows, token, now);
      if |ks| != 1 {
        return None;
      }
      var k := ks[0];
      var row := rows[k];
      rows := rows[k := row.(usedAt := Some(now))];
      r := Some(Redemption(row.email, row.appId));
    }
  }

  lemma {:induction false} NoneRedeemable(rows: seq<MagicToken>, token: string, now: int)
    requires forall i :: 0 <= i < |rows| ==> !Redeemable(rows[i], token, now)
    ensures Matching(rows, token, now) == []
  {
    if rows != [] {
      NoneRedeemable(rows[..|rows| - 1], token, now);
    }
  }

  /** Single use: once the one matching row has been marked used, verifying the same token again,
      at that time or later, matches nothing. */
  lemma RedeemedTokenIsSpent(rows: seq<MagicToken>, token: string, now: int, later: int)
    requires |Matching(rows, token, now)| == 1
    requires later >= now
    ensures var k := Matching(rows, token, now)[0];
      Matching(rows[k := rows[k].(usedAt := Some(now))], token, later) == []
  {
    var k := Matching(rows, token, now)[0];
    var rows' := rows[k := rows[k].(usedAt := Some(now))];
    forall i | 0 <= i < |rows'|
      ensures !Redeemable(rows'[i], token, later)
    {
      if i != k {
        assert Redeemable(rows'[i], token, later) ==> i in Matching(rows, token, now);
      }
    }
    NoneRedeemable(rows', token, later);
  }

  /** A newly issued token whose value no older row carries is redeemable until, and only
      until, its expiry time. */
  lemma FreshTokenWindow(rows: seq<MagicToken>, row: MagicToken, now: int)
    requires forall i :: 0 <= i < |rows| ==> rows[i].token != row.token
    requires row.usedAt.None?
    ensures now < row.expiresAt ==> Matching(rows + [row], row.token, now) == [|rows|]
    ensures now >= row.expiresAt ==> Matching(rows + [row], row.token, now) == []
  {
    assert (rows + [row])[..|rows|] == rows;
    NoneRedeemable(rows, row.token, now);
  }

  // ---------------------------------------------------------------------------
  // users
  // ---------------------------------------------------------------------------

  datatype User = User(id: nat, email: string, name: Option<string>, createdAt: int, lastLogin: Option<int>)

  /** Indices of the users with this email, in table order. */
  function WithEmail(users: seq<User>, email: string): (ks: seq<nat>)
    ensures forall j :: 0 <= j < |ks| ==> ks[j] < |users| && users[ks[j]].email == email
    ensures forall i :: 0 <= i < |users| && users[i].email == email ==> i in ks
  {
    if users == [] then []
    else
      var ks := WithEmail(users[..|users| - 1], email);
      if users[|users| - 1].email == email then ks + [|users| - 1] else ks
  }

  lemma {:induction false} NoUserWithEmail(users: seq<User>, email: string)
    requires forall i :: 0 <= i < |users| ==> users[i].email != email
    ensures WithEmail(users, email) == []
  {
    if users != [] {
      NoUserWithEmail(users[..|users| - 1], email);
    }
  }

  class UserTable {
    var users: seq<User>
    var nextId: nat

    ghost predicate Valid()
      reads this
    {
      (forall i, j :: 0 <= i < j < |users| ==> users[i].id != users[j].id)
      && forall i :: 0 <= i < |users| ==> users[i].id < nextId
    }

    constructor ()
      ensures Valid() && users == []
    {
      users := [];
      nextId := 0;
    }

    /** getOrCreateUser: when exactly one user has this email, stamp its `last_login` and return
        the row as it was read (before the stamp); otherwise insert `{email, name}` and return the
        new row, or null when the insert fails. */
    method GetOrCreateUser(email: string, name: Option<string>, now: int, insertOk: bool)
      returns (u: Option<User>)
      requires Valid()
      modifies this
      ensures Valid()
      ensures |WithEmail(old(users), email)| == 1 ==>
        var k := WithEmail(old(users), email)[0];
        && u == Some(old(users)[k])
        && users == old(users)[k := old(users)[k].(lastLogin := Some(now))]
      ensures |WithEmail(old(users), email)| != 1 && !insertOk ==> u.None? && users == old(users)
      ensures |WithEmail(old(users), email)| != 1 && insertOk ==>
        && u.Some? && u.value.email == email && u.value.name == name && u.value.lastLogin.None?
        && users == old(users) + [u.value]
    {
      var ks := WithEmail(users, email);
      if |ks| == 1 {
        var existing := users[ks[0]];
        users := users[ks[0] := existing.(lastLogin := Some(now))];
        return Some(existing);
      }
      if !insertOk {
        return None;
      }
      var created := User(nextId, email, name, now, None);
      users := users + [created];
      nextId := nextId + 1;
      u := Some(created);
    }
  }

  /** Get-or-insert: after the first insert of an email that no user had, a second call finds
      exactly that one row. */
  lemma InsertedUserIsFound(users: seq<User>, u: User)
    requires forall i :: 0 <= i < |users| ==> users[i].email != u.email
    ensures WithEmail(users + [u], u.email) == [|users|]
  {
    assert (users + [u])[..|users|] == users;
    NoUserWithEmail(users, u.email);
  }
}
