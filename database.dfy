/**
 * The in-memory rules of SimpleDatabaseManager: user creation with
 * increasing ids, password login with a lockout counter, and the bounded
 * store of packet metadata. Every public operation holds the manager's
 * mutex for its whole body, so operations are modelled in sequence.
 * Password hashing is a parameter `hash(password, salt)`, the salt and the
 * clock are inputs, and persistence and audit output are not modelled.
 */
module Database {
  import opened Common
  import opened Validation

  datatype User = User(id: int, username: string, role: string, email: string,
                       passwordHash: string, salt: string, createdAt: int, lastLogin: int,
                       isActive: bool, failedLoginAttempts: int)

  datatype PacketMetadata = PacketMetadata(id: nat, sessionId: int, packetNumber: nat, timestampNs: nat,
                                           sizeBytes: nat, protocol: string, sourceIp: string, destIp: string,
                                           sourcePort: nat, destPort: nat, flags: string, isEncrypted: bool,
                                           application: string)

  datatype CaptureSession = CaptureSession(id: int, userId: int, sessionName: string, interfaceName: string,
                                           filterExpression: string, startTime: int, endTime: Option<int>,
                                           totalPackets: nat, totalBytes: nat, status: string,
                                           filePath: Option<string>, notes: string)

  const MaxFailedAttempts := 5
  const MaxPacketsInMemory := 100000
  const PacketCleanupBatch := 10000

  /** hashPasswordSecure(password, salt); verifyPassword compares its result with the stored hash. */
  type Hasher = (string, string) -> string

  // ---------------------------------------------------------------------
  // Users
  // ---------------------------------------------------------------------

  predicate HasUser(users: seq<User>, username: string)
  {
    exists i :: 0 <= i < |users| && users[i].username == username
  }

  /** Usernames are distinct, ids increase along the vector and stay below the next id. */
  predicate UsersWellFormed(users: seq<User>, nextUserId: int)
  {
    && (forall i, j :: 0 <= i < j < |users| ==> users[i].username != users[j].username && users[i].id < users[j].id)
    && (forall i :: 0 <= i < |users| ==> users[i].id < nextUserId)
  }

  /** The format checks createUser applies, in its order, before it looks for the name. */
  predicate UserAccepted(username: string, password: string, role: string, email: string)
  {
    IsValidUsername(username) && StrongPassword(password) && IsValidRole(role) && IsValidEmail(email)
  }

  lemma UserAppendWellFormed(users: seq<User>, nextUserId: int, user: User)
    requires UsersWellFormed(users, nextUserId) && user.id == nextUserId && !HasUser(users, user.username)
    ensures UsersWellFormed(users + [user], nextUserId + 1)
  {
  }

  /** Two user vectors that differ at most in login bookkeeping. */
  predicate SameAccounts(a: seq<User>, b: seq<User>)
  {
    |a| == |b| && forall i :: 0 <= i < |a| ==> a[i].id == b[i].id && a[i].username == b[i].username
  }

  lemma SameAccountsWellFormed(a: seq<User>, b: seq<User>, nextUserId: int)
    requires SameAccounts(a, b) && UsersWellFormed(a, nextUserId)
    ensures UsersWellFormed(b, nextUserId)
  {
  }

  /** The record createUser appends. It has never logged in (the clock's epoch). */
  function NewUser(id: int, username: string, password: string, role: string, email: string,
                   salt: string, hash: Hasher, now: int): User
  {
    User(id, username, role, email, hash(password, salt), salt, now, 0, true, 0)
  }

  /** The first index holding `username`, from `from` on. */
  function IndexOfUser(users: seq<User>, username: string, from: nat): (r: Option<nat>)
    ensures r.Some? ==> from <= r.value < |users| && users[r.value].username == username
    ensures r.Some? ==> forall j :: from <= j < r.value ==> users[j].username != username
    ensures r.None? ==> forall j :: from <= j < |users| ==> users[j].username != username
    decreases |users| - from
  {
    if from >= |users| then None
    else if users[from].username == username then Some(from)
    else IndexOfUser(users, username, from + 1)
  }

  /**
   * The loop of authenticateUser from index `i` on: each active user with
   * the name is checked in turn; a locked one ends the search, a wrong
   * password counts against it and the search goes on, a right one resets
   * its count and records the login time.
   */
  function AuthScan(users: seq<User>, i: nat, username: string, password: string, hash: Hasher, now: int): (seq<User>, Option<User>)
    decreases |users| - i
  {
    if i >= |users| then (users, None)
    else
      var u := users[i];
      if u.username == username && u.isActive then
        if u.failedLoginAttempts >= MaxFailedAttempts then (users, None)
        else if hash(password, u.salt) == u.passwordHash then
          var v := u.(lastLogin := now, failedLoginAttempts := 0);
          (users[i := v], Some(v))
        else
          AuthScan(users[i := u.(failedLoginAttempts := u.failedLoginAttempts + 1)], i + 1, username, password, hash, now)
      else
        AuthScan(users, i + 1, username, password, hash, now)
  }

  /** authenticateUser: the new user vector and the user logged in, if any. */
  function Authenticate(users: seq<User>, username: string, password: string, hash: Hasher, now: int): (seq<User>, Option<User>)
  {
    if !IsValidUsername(username) || password == [] then (users, None)
    else AuthScan(users, 0, username, password, hash, now)
  }

  // ---------------------------------------------------------------------
  // Capture sessions
  // ---------------------------------------------------------------------

  /** The record createCaptureSession appends: the three texts sanitised, the session active. */
  function NewSession(id: int, userId: int, sessionName: string, interfaceName: string, filter: string, now: int): CaptureSession
  {
    CaptureSession(id, userId, Sanitized(sessionName), Sanitized(interfaceName), Sanitized(filter),
                   now, None, 0, 0, "active", None, "")
  }

  /** The validation createCaptureSession applies before it creates anything. */
  predicate SessionAccepted(sessionName: string, interfaceName: string)
  {
    IsValidSessionName(sessionName) && IsValidInterfaceName(interfaceName)
  }

  predicate SessionsWellFormed(sessions: seq<CaptureSession>, nextSessionId: int)
  {
    && 1 <= nextSessionId
    && (forall i, j :: 0 <= i < j < |sessions| ==> sessions[i].id < sessions[j].id)
    && (forall i :: 0 <= i < |sessions| ==> 1 <= sessions[i].id < nextSessionId)
  }

  lemma SessionAppendWellFormed(sessions: seq<CaptureSession>, nextSessionId: int, session: CaptureSession)
    requires SessionsWellFormed(sessions, nextSessionId) && session.id == nextSessionId
    ensures SessionsWellFormed(sessions + [session], nextSessionId + 1)
  {
  }

  // ---------------------------------------------------------------------
  // Packets
  // ---------------------------------------------------------------------

  /** The rate limit of insertPacketMetadata: a full store drops its oldest batch. */
  function Evicted(packets: seq<PacketMetadata>): seq<PacketMetadata>
  {
    if |packets| >= MaxPacketsInMemory then packets[PacketCleanupBatch..] else packets
  }

  predicate PacketsWellFormed(packets: seq<PacketMetadata>, nextPacketId: nat)
  {
    && |packets| <= MaxPacketsInMemory
    && (forall i, j :: 0 <= i < j < |packets| ==> packets[i].id < packets[j].id)
    && (forall i :: 0 <= i < |packets| ==> packets[i].id < nextPacketId)
  }

  class SimpleDatabaseManager {
    var users: seq<User>
    var sessions: seq<CaptureSession>
    var packets: seq<PacketMetadata>
    var nextUserId: int
    var nextSessionId: int
    var nextPacketId: nat

    ghost predicate Valid()
      reads this
    {
      && UsersWellFormed(users, nextUserId)
      && SessionsWellFormed(sessions, nextSessionId)
      && PacketsWellFormed(packets, nextPacketId)
    }

    constructor ()
      ensures Valid()
      ensures users == [] && sessions == [] && packets == []
      ensures nextUserId == 1 && nextSessionId == 1 && nextPacketId == 1
    {
      users, sessions, packets := [], [], [];
      nextUserId, nextSessionId, nextPacketId := 1, 1, 1;
    }

    method CreateCaptureSession(userId: int, sessionName: string, interfaceName: string, filter: string := "", now: int)
      returns (id: int)
      requires Valid()
      modifies this
      ensures Valid()
      ensures SessionAccepted(sessionName, interfaceName) ==>
        && id == old(nextSessionId) && nextSessionId == old(nextSessionId) + 1
        && sessions == old(sessions) + [NewSession(id, userId, sessionName, interfaceName, filter, now)]
      ensures !SessionAccepted(sessionName, interfaceName) ==>
        id == -1 && sessions == old(sessions) && nextSessionId == old(nextSessionId)
      ensures id == -1 || id >= 1
      ensures users == old(users) && packets == old(packets)
      ensures nextUserId == old(nextUserId) && nextPacketId == old(nextPacketId)
    {
      if !IsValidSessionName(sessionName) || !IsValidInterfaceName(interfaceName) {
        return -1;
      }
      var safeName := SanitizeInput(sessionName);
      var safeInterface := SanitizeInput(interfaceName);
      var safeFilter := SanitizeInput(filter);
      id := nextSessionId;
      var session := CaptureSession(id, userId, safeName, safeInterface, safeFilter, now, None, 0, 0, "active", None, "");
      assert session == NewSession(id, userId, sessionName, interfaceName, filter, now);
      SessionAppendWellFormed(sessions, nextSessionId, session);
      nextSessionId := nextSessionId + 1;
      sessions := sessions + [session];
    }

    method InsertPacketMetadata(packet: PacketMetadata) returns (ok: bool)
      requires Valid()
      modifies this
      ensures Valid() && ok
      ensures packets == Evicted(old(packets)) + [packet.(id := old(nextPacketId))]
      ensures nextPacketId == old(nextPacketId) + 1
      ensures users == old(users) && nextUserId == old(nextUserId)
      ensures sessions == old(sessions) && nextSessionId == old(nextSessionId)
    {
      if |packets| >= MaxPacketsInMemory {
        packets := packets[PacketCleanupBatch..];
      }
      var newPacket := packet.(id := nextPacketId);
      nextPacketId := nextPacketId + 1;
      packets := packets + [newPacket];
      InsertKeepsPacketsWellFormed(old(packets), old(nextPacketId), packet);
      return true;
    }

    method CreateUser(username: string, password: string, role: string, email: string := "",
                      salt: string, hash: Hasher, now: int) returns (ok: bool)
      requires Valid()
      modifies this
      ensures Valid()
      ensures ok == (UserAccepted(username, password, role, email) && !HasUser(old(users), username))
      ensures ok ==> users == old(users) + [NewUser(old(nextUserId), username, password, role, email, salt, hash, now)]
                     && nextUserId == old(nextUserId) + 1
      ensures !ok ==> users == old(users) && nextUserId == old(nextUserId)
      ensures packets == old(packets) && nextPacketId == old(nextPacketId)
      ensures sessions == old(sessions) && nextSessionId == old(nextSessionId)
    {
      if !IsValidUsername(username) {
        return false;
      }
      var strong := IsStrongPassword(password);
      if !strong {
        return false;
      }
      if !IsValidRole(role) {
        return false;
      }
      if !IsValidEmail(email) {
        return false;
      }
      var i := 0;
      while i < |users|
        invariant 0 <= i <= |users|
        invariant forall j :: 0 <= j < i ==> users[j].username != username
      {
        if users[i].username == username {
          return false;
        }
        i := i + 1;
      }
      var newUser := NewUser(nextUserId, username, password, role, email, salt, hash, now);
      UserAppendWellFormed(users, nextUserId, newUser);
      nextUserId := nextUserId + 1;
      users := users + [newUser];
      return true;
    }

    method AuthenticateUser(username: string, password: string, hash: Hasher, now: int) returns (r: Option<User>)
      requires Valid()
      modifies this
      ensures Valid()
      ensures (users, r) == Authenticate(old(users), username, password, hash, now)
      ensures packets == old(packets) && nextUserId == old(nextUserId) && nextPacketId == old(nextPacketId)
      ensures sessions == old(sessions) && nextSessionId == old(nextSessionId)
    {
      if !IsValidUsername(username) || |password| == 0 {
        return None;
      }
      ghost var target := Authenticate(users, username, password, hash, now);
      var i := 0;
      while i < |users|
        invariant 0 <= i <= |users| && SameAccounts(old(users), users)
        invariant AuthScan(users, i, username, password, hash, now) == target
        invariant packets == old(packets) && nextUserId == old(nextUserId) && nextPacketId == old(nextPacketId)
        invariant sessions == old(sessions) && nextSessionId == old(nextSessionId)
      {
        var u := users[i];
        if u.username == username && u.isActive {
          if u.failedLoginAttempts >= MaxFailedAttempts {
            SameAccountsWellFormed(old(users), users, nextUserId);
            return None;
          }
          if hash(password, u.salt) == u.passwordHash {
            var v := u.(lastLogin := now, failedLoginAttempts := 0);
            users := users[i := v];
            SameAccountsWellFormed(old(users), users, nextUserId);
            return Some(v);
          }
          users := users[i := u.(failedLoginAttempts := u.failedLoginAttempts + 1)];
        }
        i := i + 1;
      }
      SameAccountsWellFormed(old(users), users, nextUserId);
      return None;
    }

    method IncrementFailedLogin(username: string) returns (found: bool)
      requires Valid()
      modifies this
      ensures Valid()
      ensures found == HasUser(old(users), username)
      ensures users == (if found then var i := IndexOfUser(old(users), username, 0).value;
                                      old(users)[i := old(users)[i].(failedLoginAttempts := old(users)[i].failedLoginAttempts + 1)]
                        else old(users))
      ensures packets == old(packets) && nextUserId == old(nextUserId) && nextPacketId == old(nextPacketId)
      ensures sessions == old(sessions) && nextSessionId == old(nextSessionId)
    {
      var i := 0;
      while i < |users|
        invariant 0 <= i <= |users|
        invariant forall j :: 0 <= j < i ==> users[j].username != username
      {
        if users[i].username == username {
          users := users[i := users[i].(failedLoginAttempts := users[i].failedLoginAttempts + 1)];
          SameAccountsWellFormed(old(users), users, nextUserId);
          return true;
        }
        i := i + 1;
      }
      return false;
    }

    method ResetFailedLogin(username: string) returns (found: bool)
      requires Valid()
      modifies this
      ensures Valid()
      ensures found == HasUser(old(users), username)
      ensures users == (if found then var i := IndexOfUser(old(users), username, 0).value;
                                      old(users)[i := old(users)[i].(failedLoginAttempts := 0)]
                        else old(users))
      ensures packets == old(packets) && nextUserId == old(nextUserId) && nextPacketId == old(nextPacketId)
      ensures sessions == old(sessions) && nextSessionId == old(nextSessionId)
    {
      var i := 0;
      while i < |users|
        invariant 0 <= i <= |users|
        invariant forall j :: 0 <= j < i ==> users[j].username != username
      {
        if users[i].username == username {
          users := users[i := users[i].(failedLoginAttempts := 0)];
          SameAccountsWellFormed(old(users), users, nextUserId);
          return true;
        }
        i := i + 1;
      }
      return false;
    }
  }

  // ---------------------------------------------------------------------
  // Properties of capture sessions
  // ---------------------------------------------------------------------

  /** A new session stores a valid name exactly as given, and starts active and empty. */
  lemma NewSessionKeepsValidName(id: int, userId: int, sessionName: string, interfaceName: string, filter: string, now: int)
    requires IsValidSessionName(sessionName)
    ensures var s := NewSession(id, userId, sessionName, interfaceName, filter, now);
      s.sessionName == sessionName && s.status == "active" && s.totalPackets == 0 && s.endTime.None?
  {
    ValidSessionNameIsClean(sessionName);
  }

  // ---------------------------------------------------------------------
  // Properties of the packet store
  // ---------------------------------------------------------------------

  lemma InsertKeepsPacketsWellFormed(packets: seq<PacketMetadata>, nextPacketId: nat, packet: PacketMetadata)
    requires PacketsWellFormed(packets, nextPacketId)
    ensures PacketsWellFormed(Evicted(packets) + [packet.(id := nextPacketId)], nextPacketId + 1)
  {
  }

  /** A full store loses exactly its 10000 oldest packets before the new one is appended. */
  lemma FullStoreDropsOldestBatch(packets: seq<PacketMetadata>, nextPacketId: nat, packet: PacketMetadata)
    requires |packets| == MaxPacketsInMemory
    ensures var after := Evicted(packets) + [packet.(id := nextPacketId)];
      && |after| == MaxPacketsInMemory - PacketCleanupBatch + 1
      && after[..|after| - 1] == packets[PacketCleanupBatch..]
      && after[|after| - 1].id == nextPacketId
  {
  }

  // ---------------------------------------------------------------------
  // Properties of login
  // ---------------------------------------------------------------------

  lemma {:induction false} ScanNoMatch(users: seq<User>, i: nat, username: string, password: string, hash: Hasher, now: int)
    requires forall j :: i <= j < |users| ==> users[j].username != username || !users[j].isActive
    ensures AuthScan(users, i, username, password, hash, now) == (users, None)
    decreases |users| - i
  {
    if i < |users| {
      ScanNoMatch(users, i + 1, username, password, hash, now);
    }
  }

  /** The result of a login attempt against the one account that holds the name. */
  function LoginAt(users: seq<User>, k: nat, password: string, hash: Hasher, now: int): (seq<User>, Option<User>)
    requires k < |users|
  {
    var u := users[k];
    if u.failedLoginAttempts >= MaxFailedAttempts then (users, None)
    else if hash(password, u.salt) == u.passwordHash then
      (users[k := u.(lastLogin := now, failedLoginAttempts := 0)], Some(u.(lastLogin := now, failedLoginAttempts := 0)))
    else (users[k := u.(failedLoginAttempts := u.failedLoginAttempts + 1)], None)
  }

  lemma {:induction false} ScanSingleMatch(users: seq<User>, i: nat, k: nat, username: string, password: string, hash: Hasher, now: int)
    requires i <= k < |users| && users[k].username == username && users[k].isActive
    requires forall j :: i <= j < |users| && j != k ==> users[j].username != username
    ensures AuthScan(users, i, username, password, hash, now) == LoginAt(users, k, password, hash, now)
    decreases k - i
  {
    var u := users[k];
    if i < k {
      ScanSingleMatch(users, i + 1, k, username, password, hash, now);
    } else if u.failedLoginAttempts < MaxFailedAttempts && hash(password, u.salt) != u.passwordHash {
      var after := users[k := u.(failedLoginAttempts := u.failedLoginAttempts + 1)];
      ScanNoMatch(after, k + 1, username, password, hash, now);
    }
  }

  /** A locked account is refused whatever the password, and nothing changes. */
  lemma LockedAccountRejected(users: seq<User>, nextUserId: int, k: nat, password: string, hash: Hasher, now: int)
    requires UsersWellFormed(users, nextUserId) && k < |users|
    requires users[k].isActive && users[k].failedLoginAttempts >= MaxFailedAttempts
    ensures Authenticate(users, users[k].username, password, hash, now) == (users, None)
  {
    if IsValidUsername(users[k].username) && password != [] {
      ScanSingleMatch(users, 0, k, users[k].username, password, hash, now);
    }
  }

  /** The right password on an unlocked account logs in and clears the failure count. */
  lemma CorrectPasswordResetsCount(users: seq<User>, nextUserId: int, k: nat, password: string, hash: Hasher, now: int)
    requires UsersWellFormed(users, nextUserId) && k < |users|
    requires IsValidUsername(users[k].username) && password != []
    requires users[k].isActive && users[k].failedLoginAttempts < MaxFailedAttempts
    requires hash(password, users[k].salt) == users[k].passwordHash
    ensures var v := users[k].(lastLogin := now, failedLoginAttempts := 0);
      Authenticate(users, users[k].username, password, hash, now) == (users[k := v], Some(v))
  {
    ScanSingleMatch(users, 0, k, users[k].username, password, hash, now);
  }

  /** A wrong password on an unlocked account adds one failed attempt and logs nobody in. */
  lemma WrongPasswordCountsFailure(users: seq<User>, nextUserId: int, k: nat, password: string, hash: Hasher, now: int)
    requires UsersWellFormed(users, nextUserId) && k < |users|
    requires IsValidUsername(users[k].username) && password != []
    requires users[k].isActive && users[k].failedLoginAttempts < MaxFailedAttempts
    requires hash(password, users[k].salt) != users[k].passwordHash
    ensures Authenticate(users, users[k].username, password, hash, now) ==
      (users[k := users[k].(failedLoginAttempts := users[k].failedLoginAttempts + 1)], None)
  {
    ScanSingleMatch(users, 0, k, users[k].username, password, hash, now);
  }

  /** `n` successive login attempts with the same credentials. */
  function RepeatLogin(users: seq<User>, username: string, password: string, hash: Hasher, now: int, n: nat): seq<User>
    decreases n
  {
    if n == 0 then users
    else RepeatLogin(Authenticate(users, username, password, hash, now).0, username, password, hash, now, n - 1)
  }

  /** Each wrong password adds one to the account's count until it reaches the lockout limit. */
  lemma {:induction false} WrongPasswordsAccumulate(users: seq<User>, nextUserId: int, k: nat, password: string,
                                                    hash: Hasher, now: int, n: nat)
    requires UsersWellFormed(users, nextUserId) && k < |users|
    requires IsValidUsername(users[k].username) && password != []
    requires users[k].isActive && hash(password, users[k].salt) != users[k].passwordHash
    requires 0 <= users[k].failedLoginAttempts && users[k].failedLoginAttempts + n <= MaxFailedAttempts
    ensures RepeatLogin(users, users[k].username, password, hash, now, n) ==
      users[k := users[k].(failedLoginAttempts := users[k].failedLoginAttempts + n)]
    decreases n
  {
    if n > 0 {
      var u := users[k];
      WrongPasswordCountsFailure(users, nextUserId, k, password, hash, now);
      var after := users[k := u.(failedLoginAttempts := u.failedLoginAttempts + 1)];
      assert SameAccounts(users, after);
      SameAccountsWellFormed(users, after, nextUserId);
      WrongPasswordsAccumulate(after, nextUserId, k, password, hash, now, n - 1);
      assert after[k := after[k].(failedLoginAttempts := after[k].failedLoginAttempts + (n - 1))] ==
             users[k := u.(failedLoginAttempts := u.failedLoginAttempts + n)];
    }
  }

  /** Five wrong passwords in a row lock a fresh account: the right password is then refused. */
  lemma FiveWrongPasswordsLock(users: seq<User>, nextUserId: int, k: nat, wrong: string, right: string,
                               hash: Hasher, now: int)
    requires UsersWellFormed(users, nextUserId) && k < |users|
    requires IsValidUsername(users[k].username) && wrong != []
    requires users[k].isActive && users[k].failedLoginAttempts == 0
    requires hash(wrong, users[k].salt) != users[k].passwordHash
    ensures var locked := RepeatLogin(users, users[k].username, wrong, hash, now, MaxFailedAttempts);
      Authenticate(locked, users[k].username, right, hash, now) == (locked, None)
  {
    WrongPasswordsAccumulate(users, nextUserId, k, wrong, hash, now, MaxFailedAttempts);
    var locked := RepeatLogin(users, users[k].username, wrong, hash, now, MaxFailedAttempts);
    assert SameAccounts(users, locked);
    SameAccountsWellFormed(users, locked, nextUserId);
    LockedAccountRejected(locked, nextUserId, k, right, hash, now);
  }

  /** Unknown names, inactive accounts and malformed credentials log nobody in and change nothing. */
  lemma NoActiveAccountRejected(users: seq<User>, username: string, password: string, hash: Hasher, now: int)
    requires !IsValidUsername(username) || password == [] ||
             forall j :: 0 <= j < |users| ==> users[j].username != username || !users[j].isActive
    ensures Authenticate(users, username, password, hash, now) == (users, None)
  {
    if IsValidUsername(username) && password != [] {
      ScanNoMatch(users, 0, username, password, hash, now);
    }
  }

  /** Login never changes which accounts exist. */
  lemma {:induction false} AuthScanKeepsAccounts(users: seq<User>, i: nat, username: string, password: string, hash: Hasher, now: int)
    ensures SameAccounts(users, AuthScan(users, i, username, password, hash, now).0)
    decreases |users| - i
  {
    if i < |users| {
      var u := users[i];
      if u.username == username && u.isActive {
        var after := users[i := u.(failedLoginAttempts := u.failedLoginAttempts + 1)];
        AuthScanKeepsAccounts(after, i + 1, username, password, hash, now);
      } else {
        AuthScanKeepsAccounts(users, i + 1, username, password, hash, now);
      }
    }
  }

  /** An account that createUser has just added accepts its password. */
  lemma CreatedUserCanLogIn(users: seq<User>, nextUserId: int, username: string, password: string, role: string,
                            email: string, salt: string, hash: Hasher, createdAt: int, now: int)
    requires UsersWellFormed(users, nextUserId) && !HasUser(users, username)
    requires IsValidUsername(username) && StrongPassword(password)
    ensures var nu := NewUser(nextUserId, username, password, role, email, salt, hash, createdAt);
      var v := nu.(lastLogin := now);
      Authenticate(users + [nu], username, password, hash, now) == ((users + [nu])[|users| := v], Some(v))
  {
    var nu := NewUser(nextUserId, username, password, role, email, salt, hash, createdAt);
    var after := users + [nu];
    assert UsersWellFormed(after, nextUserId + 1);
    CorrectPasswordResetsCount(after, nextUserId + 1, |users|, password, hash, now);
  }

  /** createUser with the default empty email always fails. */
  lemma DefaultEmailRejected(username: string, password: string, role: string)
    ensures !UserAccepted(username, password, role, "")
  {
    EmptyEmailIsInvalid();
  }
}
