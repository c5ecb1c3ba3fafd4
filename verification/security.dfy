/** The password-credential layer: a salted SHA-512 password hash, user
    registration, login (which opens a session), the session check and
    logout, all over the storage contract of module Db.

    SHA-512 itself is not modelled: every operation takes the digest
    function as a parameter `sha`, of which only the 64-byte result length
    is known. The random salt and the session id the store issues are
    parameters too. */
module Security {
  import opened Types
  import Base64
  import Db

  const DigestLength: nat := 64
  const SaltLength: nat := 16
  /** Length of the encoded hash: 64 bytes make 22 base64 groups of 4. */
  const HashLength: nat := 88

  /** A SHA-512 digest. */
  type Digest = d: Bytes | |d| == DigestLength witness seq(64, i => 0 as byte)

  /** The digest function `sha512.New().Write(..).Sum(nil)`. */
  type Sha512 = Bytes -> Digest

  /** The 16 bytes `rand.Read` fills in. */
  type Salt = s: Bytes | |s| == SaltLength witness seq(16, i => 0 as byte)

  /** `hashPassword`: the padded base64url text of the SHA-512 digest of the
      password bytes followed by the salt bytes. The text is 88 characters of
      the URL-safe alphabet with padding only at its end, so it fits the
      `CHAR(128)` password column, and it decodes back to exactly that
      digest: nothing but the password and then the salt goes into it. */
  function HashPassword(sha: Sha512, password: Bytes, salt: Bytes): (h: string)
    ensures |h| == HashLength && |h| <= Db.PasswordWidth
    ensures forall i :: 0 <= i < |h| ==> Base64.IsSymbol(h[i]) || (h[i] == Base64.Pad && |h| - 2 <= i)
    ensures Base64.Decode(h) == Some(sha(password + salt))
  {
    var digest := sha(password + salt);
    Base64.DecodeEncode(digest);
    var h := Base64.Encode(digest);
    assert |h| == 4 * ((DigestLength + 2) / 3) == HashLength;
    h
  }

  /** The hash is the only text that decodes to the salted digest, so the
      decoding clause of HashPassword fixes the hash character by character. */
  lemma OnlyTheHashDecodesToTheDigest(sha: Sha512, password: Bytes, salt: Bytes, text: string)
    requires Base64.Decode(text) == Some(sha(password + salt))
    ensures text == HashPassword(sha, password, salt)
  {
    Base64.EncodeDecode(text);
  }

  /** Two hashes are equal exactly when the digests of their salted inputs
      are; this follows from the decoding clause of HashPassword. */
  lemma HashesAgree(sha: Sha512, p: Bytes, s: Bytes, q: Bytes, t: Bytes)
    ensures HashPassword(sha, p, s) == HashPassword(sha, q, t) <==> sha(p + s) == sha(q + t)
  {
  }

  /** With salts of one fixed length, the digest input determines both the
      password and the salt. */
  lemma SaltedInputSplits(p: Bytes, s: Bytes, q: Bytes, t: Bytes)
    requires |s| == |t|
    ensures p + s == q + t <==> p == q && s == t
  {
    if p + s == q + t {
      assert |p| == |q|;
      assert p == (p + s)[..|p|] && q == (q + t)[..|q|];
      assert s == (p + s)[|p|..] && t == (q + t)[|q|..];
    }
  }

  /** Two credentials with 16-byte salts hash alike exactly when they are the
      same password and salt, or when their digest inputs differ and SHA-512
      collides on them: nothing but the password followed by the salt enters
      the hash, so different credentials share a hash only through a collision. */
  lemma EqualHashesNeedSameCredentialOrCollision(sha: Sha512, p: Bytes, s: Salt, q: Bytes, t: Salt)
    ensures HashPassword(sha, p, s) == HashPassword(sha, q, t) <==>
              (p == q && s == t) || (p + s != q + t && sha(p + s) == sha(q + t))
  {
    HashesAgree(sha, p, s, q, t);
    SaltedInputSplits(p, s, q, t);
  }

  /** The comparison `Authenticate` makes: the password, hashed with the
      stored salt, gives the stored hash. */
  predicate Matches(c: Db.Credential, sha: Sha512, password: Bytes) {
    HashPassword(sha, password, c.salt) == c.hash
  }

  /** The credential `Createuser` stores for a password and salt. */
  function NewCredential(sha: Sha512, password: Bytes, salt: Salt): (c: Db.Credential)
    ensures |c.hash| == HashLength && c.salt == salt
  {
    Db.Credential(HashPassword(sha, password, salt), salt)
  }

  /** Registration round trip: a stored credential accepts exactly the
      passwords whose salted digest equals that of the registered password;
      in particular it accepts the registered password. */
  lemma RegistrationRoundTrip(sha: Sha512, password: Bytes, salt: Salt, attempt: Bytes)
    ensures Matches(NewCredential(sha, password, salt), sha, password)
    ensures Matches(NewCredential(sha, password, salt), sha, attempt) <==> sha(attempt + salt) == sha(password + salt)
  {
  }

  /** Every row that registration wrote: an 88-character hash and a 16-byte salt. */
  ghost predicate WellFormedUsers(users: map<string, Db.Credential>) {
    forall u :: u in users ==> |users[u].hash| == HashLength && |users[u].salt| == SaltLength
  }

  /** `Createuser`. An existing user (non-empty stored hash) is refused and
      nothing is stored; so is a failed salt draw. Otherwise the row
      {username, hashPassword(password, salt), salt} goes to `Adduser`, with
      one and the same 16-byte salt, and its error is returned. */
  method Createuser(db: Db.Database, sha: Sha512, username: string, password: Bytes,
                    saltDraw: Option<Salt>, accepted: bool) returns (err: Option<Error>)
    modifies db
    ensures db.sessions == old(db.sessions)
    ensures old(db.Getcreds(username)).hash != "" ==>
              err == Some(UserAlreadyExists) && db.users == old(db.users)
    ensures old(db.Getcreds(username)).hash == "" && saltDraw == None ==>
              err == Some(SaltFailed) && db.users == old(db.users)
    ensures old(db.Getcreds(username)).hash == "" && saltDraw != None ==>
              && (err == None <==> accepted && |username| <= Db.UsernameWidth)
              && (err == None ==>
                    db.users == old(db.users)[username := NewCredential(sha, password, saltDraw.value)])
              && (err != None ==> err == Some(InsertFailed) && db.users == old(db.users))
    ensures WellFormedUsers(old(db.users)) ==> WellFormedUsers(db.users)
    ensures WellFormedUsers(old(db.users)) ==> (err == Some(UserAlreadyExists) <==> username in old(db.users))
  {
    var creds := db.Getcreds(username);
    if creds.hash != "" {
      return Some(UserAlreadyExists);
    }
    if saltDraw == None {
      return Some(SaltFailed);
    }
    var salt := saltDraw.value;
    var hash := HashPassword(sha, password, salt);
    var user := Db.User(username, hash, salt);
    err := db.Adduser(user, accepted);
  }

  /** `Authenticate`. An unknown user gets the lookup error, a wrong password
      "Password is incorrect"; in both cases no session is added. Only when
      the recomputed hash equals the stored one is a session requested, and
      its id (or an error carrying the store error) is returned. */
  method Authenticate(db: Db.Database, sha: Sha512, username: string, password: Bytes,
                      issued: Option<string>) returns (r: Result<string>)
    modifies db
    ensures db.users == old(db.users)
    ensures username !in old(db.users) ==>
              r == Err(NoSuchRow) && db.sessions == old(db.sessions)
    ensures username in old(db.users) && !Matches(old(db.users[username]), sha, password) ==>
              r == Err(PasswordIncorrect) && db.sessions == old(db.sessions)
    ensures username in old(db.users) && Matches(old(db.users[username]), sha, password) ==>
              if issued != None
              then r == Ok(issued.value) && db.sessions == old(db.sessions)[issued.value := username]
              else r == Err(SessionCreateFailed(SessionStoreFailed)) && db.sessions == old(db.sessions)
    ensures db.sessions != old(db.sessions) ==>
              r.Ok? && username in old(db.users) && Matches(old(db.users[username]), sha, password)
  {
    var creds := db.Getcreds(username);
    if creds.err != None {
      return Err(creds.err.value);
    }
    var hashed := HashPassword(sha, password, creds.salt);
    if hashed != creds.hash {
      return Err(PasswordIncorrect);
    }
    var session := db.AddSession(username, issued);
    if session.Err? {
      return Err(SessionCreateFailed(session.error));
    }
    r := Ok(session.value);
  }

  /** `IsAuthenticated`: exactly the store's answer for this session id. */
  function IsAuthenticated(db: Db.Database, uuid: string): (r: Db.SessionCheck)
    reads db
    ensures r == db.ValidSession(uuid)
    ensures r.valid <==> uuid in db.sessions
  {
    db.ValidSession(uuid)
  }

  /** `RemoveSession`. An unknown id returns the lookup error and deletes
      nothing. A known id deletes by the user name it resolves to, so every
      session of that user goes, not only this one. */
  method RemoveSession(db: Db.Database, uuid: string, accepted: bool) returns (err: Option<Error>)
    modifies db
    ensures db.users == old(db.users)
    ensures uuid !in old(db.sessions) ==>
              err == Some(SessionNotFound) && db.sessions == old(db.sessions)
    ensures uuid in old(db.sessions) && !accepted ==>
              err == Some(SessionStoreFailed) && db.sessions == old(db.sessions)
    ensures uuid in old(db.sessions) && accepted ==>
              err == None && db.sessions == Db.WithoutOwner(old(db.sessions), old(db.sessions[uuid]))
    ensures err == None ==> uuid !in db.sessions
  {
    var owner := db.GetUsername(uuid);
    if owner.Err? {
      return Some(owner.error);
    }
    err := db.DeleteSession(owner.value, accepted);
  }

  /** Registration followed by login with the same password: the login
      succeeds and opens a session for the new user. */
  method RegisterThenLogin(db: Db.Database, sha: Sha512, username: string, password: Bytes,
                           salt: Salt, id: string) returns (created: Option<Error>, login: Result<string>)
    requires WellFormedUsers(db.users)
    requires username !in db.users && |username| <= Db.UsernameWidth
    modifies db
    ensures created == None && login == Ok(id)
    ensures db.users == old(db.users)[username := NewCredential(sha, password, salt)]
    ensures db.sessions == old(db.sessions)[id := username]
    ensures WellFormedUsers(db.users)
  {
    created := Createuser(db, sha, username, password, Some(salt), true);
    RegistrationRoundTrip(sha, password, salt, password);
    login := Authenticate(db, sha, username, password, Some(id));
  }

  /** Registering a name twice: the second attempt is refused and the
      credential from the first is kept. */
  method RegisterTwice(db: Db.Database, sha: Sha512, username: string,
                       first: Bytes, second: Bytes, s1: Salt, s2: Salt) returns (again: Option<Error>)
    requires WellFormedUsers(db.users)
    requires username !in db.users && |username| <= Db.UsernameWidth
    modifies db
    ensures again == Some(UserAlreadyExists)
    ensures db.users == old(db.users)[username := NewCredential(sha, first, s1)]
    ensures db.sessions == old(db.sessions)
  {
    var created := Createuser(db, sha, username, first, Some(s1), true);
    again := Createuser(db, sha, username, second, Some(s2), true);
  }
}
