/**
 * The account and quota ledger: the users table as a map from username to
 * its row, the append-only api_usage log as a sequence, and the
 * UserManager operations over them.  Password hashing is the manager's
 * `hash` function, left uninterpreted; the date and the timestamp that
 * the clock would give are parameters, already formatted.
 */
module Accounts {
  import opened Wrappers

  /** One row of the users table (the username is its key). */
  datatype User = User(
    passwordHash: string,
    email: string,
    quotaLimit: int,
    quotaUsed: int,
    lastResetDate: string,
    isAdmin: bool)

  /** One row of the api_usage log. */
  datatype UsageRecord = UsageRecord(username: string, timestamp: string, model: string, tokensUsed: int)

  /** What get_user_info reports about a user. */
  datatype UserInfo = UserInfo(quotaLimit: int, quotaUsed: int, lastResetDate: string, isAdmin: bool)

  type Users = map<string, User>

  const DefaultQuotaLimit: int := 1000

  /** The UNIQUE constraint on the email column. */
  ghost predicate EmailsUnique(users: Users) {
    forall u, v :: u in users && v in users && users[u].email == users[v].email ==> u == v
  }

  predicate EmailTaken(users: Users, email: string) {
    exists u :: u in users && users[u].email == email
  }

  /** Nobody has used more than their limit. */
  ghost predicate WithinLimits(users: Users) {
    forall u :: u in users ==> users[u].quotaUsed <= users[u].quotaLimit
  }

  /** Every row except that of username is as it was, and no other row appeared or vanished. */
  ghost predicate OthersUnchanged(before: Users, after: Users, username: string) {
    forall v :: v != username ==> (v in before <==> v in after) && (v in before ==> after[v] == before[v])
  }

  /**
   * The INSERT of add_user, or None when the PRIMARY KEY (username) or the
   * UNIQUE email constraint refuses it.
   */
  function Inserted(users: Users, username: string, passwordHash: string, email: string,
                    quotaLimit: int, isAdmin: bool, today: string): (r: Option<Users>)
    ensures r.None? <==> username in users || EmailTaken(users, email)
    ensures r.Some? ==>
      && username !in users
      && r.value.Keys == users.Keys + {username}
      && r.value[username] == User(passwordHash, email, quotaLimit, 0, today, isAdmin)
      && OthersUnchanged(users, r.value, username)
  {
    if username in users || EmailTaken(users, email) then None
    else Some(users[username := User(passwordHash, email, quotaLimit, 0, today, isAdmin)])
  }

  /** UPDATE users SET quota_used = quota_used + amount: no cap, no effect on an unknown user. */
  function Charged(users: Users, username: string, amount: int): (r: Users)
    ensures r.Keys == users.Keys
    ensures username in users ==>
      r[username] == users[username].(quotaUsed := users[username].quotaUsed + amount)
    ensures OthersUnchanged(users, r, username)
  {
    if username in users then users[username := users[username].(quotaUsed := users[username].quotaUsed + amount)]
    else users
  }

  /**
   * deduct_conversation: the charge of count, made only when the user
   * exists and quota_used + count does not exceed quota_limit.
   */
  function Deducted(users: Users, username: string, count: int): (r: Option<Users>)
    ensures r.None? <==> username !in users || users[username].quotaUsed + count > users[username].quotaLimit
    ensures r.Some? ==> r.value == Charged(users, username, count)
  {
    if username !in users then None
    else if users[username].quotaUsed + count > users[username].quotaLimit then None
    else Some(Charged(users, username, count))
  }

  /** reset_quota: quota_used back to 0 and last_reset_date stamped, for a user that exists. */
  function Reset(users: Users, username: string, today: string): (r: Users)
    ensures r.Keys == users.Keys
    ensures username in users ==>
      r[username] == users[username].(quotaUsed := 0, lastResetDate := today)
    ensures OthersUnchanged(users, r, username)
  {
    if username in users then users[username := users[username].(quotaUsed := 0, lastResetDate := today)]
    else users
  }

  // ---------------------------------------------------------------------
  // Properties of the ledger

  /** A successful deduction never leaves the user over the limit, so it keeps every user within limits. */
  lemma DeductStaysWithinLimit(users: Users, username: string, count: int)
    requires Deducted(users, username, count).Some?
    ensures var r := Deducted(users, username, count).value;
      && r[username].quotaUsed == users[username].quotaUsed + count
      && r[username].quotaUsed <= r[username].quotaLimit
      && (WithinLimits(users) ==> WithinLimits(r))
  {
    var r := Deducted(users, username, count).value;
    if WithinLimits(users) {
      forall u | u in r ensures r[u].quotaUsed <= r[u].quotaLimit {
        if u != username { assert r[u] == users[u]; }
      }
    }
  }

  /** 999 of 1000 used: deducting 2 is refused, deducting 1 reaches exactly 1000. */
  lemma DeductAtTheBoundary(users: Users, username: string)
    requires username in users && users[username].quotaLimit == 1000 && users[username].quotaUsed == 999
    ensures Deducted(users, username, 2).None?
    ensures Deducted(users, username, 1).Some? && Deducted(users, username, 1).value[username].quotaUsed == 1000
  {
  }

  /** Two successful deductions in a row amount to one deduction of their sum. */
  lemma DeductionsCompose(users: Users, username: string, a: int, b: int)
    requires Deducted(users, username, a).Some?
    requires Deducted(Deducted(users, username, a).value, username, b).Some?
    ensures Deducted(users, username, a + b) == Deducted(Deducted(users, username, a).value, username, b)
  {
    var s1 := Deducted(users, username, a).value;
    var s2 := Deducted(s1, username, b).value;
    assert s2[username] == Charged(users, username, a + b)[username];
    assert s2 == Charged(users, username, a + b);
  }

  /** update_quota charges past the limit where deduct_conversation would refuse. */
  lemma ChargeIgnoresLimit(users: Users, username: string, amount: int)
    requires username in users && users[username].quotaUsed + amount > users[username].quotaLimit
    ensures Deducted(users, username, amount).None?
    ensures Charged(users, username, amount)[username].quotaUsed > users[username].quotaLimit
  {
  }

  /** Resetting twice on the same day is resetting once. */
  lemma ResetIsIdempotent(users: Users, username: string, today: string)
    ensures Reset(Reset(users, username, today), username, today) == Reset(users, username, today)
  {
  }

  /** A successful insertion keeps the email column unique. */
  lemma InsertKeepsEmailsUnique(users: Users, username: string, passwordHash: string, email: string,
                                quotaLimit: int, isAdmin: bool, today: string)
    requires EmailsUnique(users)
    requires Inserted(users, username, passwordHash, email, quotaLimit, isAdmin, today).Some?
    ensures EmailsUnique(Inserted(users, username, passwordHash, email, quotaLimit, isAdmin, today).value)
  {
  }

  // ---------------------------------------------------------------------
  // The manager

  class UserManager {
    /** The users table. */
    var users: Users
    /** The api_usage table, oldest record first. */
    var usage: seq<UsageRecord>
    /** hash_password: the digest stored for a password. */
    const hash: string -> string

    /** The database's UNIQUE constraint on email. */
    ghost predicate Valid()
      reads this
    {
      EmailsUnique(users)
    }

    /** Opens a store holding the given tables. */
    constructor(hash: string -> string, users: Users, usage: seq<UsageRecord>)
      requires EmailsUnique(users)
      ensures Valid()
      ensures this.hash == hash && this.users == users && this.usage == usage
    {
      this.hash := hash;
      this.users := users;
      this.usage := usage;
    }

    /**
     * add_user: insert a row with the password's hash, quota_used 0 and
     * last_reset_date today; false when the username or the email is taken.
     */
    method AddUser(username: string, password: string, email: string,
                   quotaLimit: int := DefaultQuotaLimit, isAdmin: bool := false,
                   nameonly today: string) returns (ok: bool)
      requires Valid()
      modifies this
      ensures Valid() && usage == old(usage)
      ensures var r := Inserted(old(users), username, hash(password), email, quotaLimit, isAdmin, today);
        ok == r.Some? && users == if ok then r.value else old(users)
      ensures ok ==>
        && VerifyUser(username, password)
        && GetUserByEmail(email) == Some(username)
        && GetUserInfo(username) == Some(UserInfo(quotaLimit, 0, today, isAdmin))
    {
      if username in users || EmailTaken(users, email) {
        return false;
      }
      users := users[username := User(hash(password), email, quotaLimit, 0, today, isAdmin)];
      ok := true;
    }

    /** verify_user: the user exists and the stored hash is that of the password. */
    function VerifyUser(username: string, password: string): (r: bool)
      reads this
      ensures r ==> username in users
      ensures username in users ==> (r <==> users[username].passwordHash == hash(password))
    {
      username in users && users[username].passwordHash == hash(password)
    }

    /** check_quota: some quota is left, which is exactly when a deduction of one would succeed. */
    function CheckQuota(username: string): (r: bool)
      reads this
      ensures r <==> Deducted(users, username, 1).Some?
      ensures r ==> username in users && users[username].quotaUsed < users[username].quotaLimit
    {
      if username !in users then false
      else users[username].quotaUsed < users[username].quotaLimit
    }

    /** deduct_conversation: charge count, unless the user is unknown or the limit would be exceeded. */
    method DeductConversation(username: string, count: int := 1) returns (ok: bool)
      requires Valid()
      modifies this
      ensures Valid() && usage == old(usage)
      ensures var r := Deducted(old(users), username, count);
        ok == r.Some? && users == if ok then r.value else old(users)
      ensures ok ==> users[username].quotaUsed <= users[username].quotaLimit
    {
      if username !in users {
        return false;
      }
      var row := users[username];
      if row.quotaUsed + count > row.quotaLimit {
        return false;
      }
      users := users[username := row.(quotaUsed := row.quotaUsed + count)];
      ok := true;
    }

    /** update_quota: charge tokensUsed with no cap check and append one usage record, known user or not. */
    method UpdateQuota(username: string, tokensUsed: int, model: string, nameonly timestamp: string)
      requires Valid()
      modifies this
      ensures Valid()
      ensures users == Charged(old(users), username, tokensUsed)
      ensures usage == old(usage) + [UsageRecord(username, timestamp, model, tokensUsed)]
    {
      if username in users {
        users := users[username := users[username].(quotaUsed := users[username].quotaUsed + tokensUsed)];
      }
      usage := usage + [UsageRecord(username, timestamp, model, tokensUsed)];
    }

    /** reset_quota: quota_used to 0 and last_reset_date to today for the named user. */
    method ResetQuota(username: string, nameonly today: string)
      requires Valid()
      modifies this
      ensures Valid() && usage == old(usage)
      ensures users == Reset(old(users), username, today)
      ensures username in users ==> CheckQuota(username) == (users[username].quotaLimit > 0)
    {
      if username in users {
        users := users[username := users[username].(quotaUsed := 0, lastResetDate := today)];
      }
    }

    /** get_user_info: the quota fields and the admin flag, or None for an unknown user. */
    function GetUserInfo(username: string): (r: Option<UserInfo>)
      reads this
      ensures r.Some? <==> username in users
      ensures r.Some? ==>
        var u := users[username];
        r.value == UserInfo(u.quotaLimit, u.quotaUsed, u.lastResetDate, u.isAdmin)
    {
      if username in users then
        var u := users[username];
        Some(UserInfo(u.quotaLimit, u.quotaUsed, u.lastResetDate, u.isAdmin))
      else None
    }

    /** is_admin: the flag of a known user, false for an unknown one; it agrees with get_user_info. */
    function IsAdmin(username: string): (r: bool)
      reads this
      ensures r <==> GetUserInfo(username).Some? && GetUserInfo(username).value.isAdmin
    {
      username in users && users[username].isAdmin
    }

    /** get_user_by_email: the one user with that email, or None. */
    function GetUserByEmail(email: string): (r: Option<string>)
      requires Valid()
      reads this
      ensures r.None? <==> !EmailTaken(users, email)
      ensures r.Some? ==> r.value in users && users[r.value].email == email
      ensures forall u :: u in users && users[u].email == email ==> r == Some(u)
    {
      if EmailTaken(users, email) then
        var u :| u in users && users[u].email == email;
        Some(u)
      else None
    }
  }
}
