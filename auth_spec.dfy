/**
 * The authentication core as a state machine over the user store: each of
 * Register, Login and Refresh maps the store before the call to the response
 * and the store after it. Password hashing, JWT signing, randomness and the
 * clock are inputs.
 */
module AuthSpec {
  import opened Wrappers
  import opened Entities
  import Repository

  /** The exceptions the service throws, by message. */
  datatype AuthError = UserExists | InvalidCredentials | InvalidRefreshToken {
    function Message(): string {
      match this
      case UserExists => "User exists"
      case InvalidCredentials => "Invalid credentials"
      case InvalidRefreshToken => "Invalid refresh token"
    }
  }

  /** The `Jwt` configuration section, with the two lifetimes as whole minutes and whole days. */
  datatype JwtConfig = JwtConfig(
    key: string,
    issuer: string,
    audience: string,
    accessTokenExpiryMinutes: nat,
    refreshTokenExpiryDays: nat)

  /** BCrypt's `HashPassword` and `Verify`, supplied from outside. */
  datatype PasswordHasher = PasswordHasher(hash: string -> string, verify: (string, string) -> bool)

  /** What the hasher is trusted to do: every password verifies against its own hash. */
  ghost predicate Sound(h: PasswordHasher) {
    forall p :: h.verify(p, h.hash(p))
  }

  /** The JWT before serialisation: its two claims, issuer, audience, expiry and the key it is signed with. */
  datatype AccessToken = AccessToken(
    nameIdentifier: Guid,
    email: string,
    issuer: string,
    audience: string,
    expires: Time,
    signingKey: string)

  datatype TokenDto = TokenDto(accessToken: AccessToken, refreshToken: string)
  datatype UserRegisterDto = UserRegisterDto(username: string, email: string, password: string)
  datatype UserLoginDto = UserLoginDto(email: string, password: string)

  /** The response of one call together with the user store after it. */
  datatype Step = Step(result: Result<TokenDto, AuthError>, users: seq<User>)

  /** No two users share an email (the email is the login key). */
  ghost predicate UniqueEmails(users: seq<User>) {
    forall i, j :: 0 <= i < j < |users| ==> users[i].email != users[j].email
  }

  /** No two users hold the same refresh token. */
  ghost predicate UniqueRefreshTokens(users: seq<User>) {
    forall i, j :: 0 <= i < j < |users| && users[i].refreshToken.Some? ==>
      users[i].refreshToken != users[j].refreshToken
  }

  /** No user holds `token` as its refresh token. */
  ghost predicate Unheld(users: seq<User>, token: string) {
    forall j :: 0 <= j < |users| ==> users[j].refreshToken != Some(token)
  }

  /** `FirstOrDefaultAsync(u => u.Email == email)`. */
  function FindByEmail(users: seq<User>, email: string): Option<nat> {
    Repository.FirstIndex(users, (u: User) => u.email == email)
  }

  /** The refresh lookup's predicate: the stored token is `presented` and has not expired at `now`. */
  predicate HasLiveToken(u: User, presented: string, now: Time) {
    u.refreshToken == Some(presented) && u.refreshTokenExpiry > now
  }

  /** `FirstOrDefaultAsync(u => u.RefreshToken == presented && u.RefreshTokenExpiry > now)`. */
  function FindByRefreshToken(users: seq<User>, presented: string, now: Time): Option<nat> {
    Repository.FirstIndex(users, (u: User) => HasLiveToken(u, presented, now))
  }

  /** The access token issued to `u` at `now`. */
  function IssueAccessToken(cfg: JwtConfig, u: User, now: Time): AccessToken {
    AccessToken(u.id, u.email, cfg.issuer, cfg.audience,
                now + cfg.accessTokenExpiryMinutes * TicksPerMinute, cfg.key)
  }

  /** The refresh expiry stored at `now`. */
  function RefreshExpiry(cfg: JwtConfig, now: Time): Time {
    now + cfg.refreshTokenExpiryDays * TicksPerDay
  }

  /** Token issuance for the user at position `i`, with `drawn` the newly drawn refresh token. */
  function GenerateTokens(cfg: JwtConfig, users: seq<User>, i: nat, now: Time, drawn: string): (r: Step)
    requires i < |users|
    ensures r.result.Success? && |r.users| == |users|
    ensures forall j :: 0 <= j < |users| && j != i ==> r.users[j] == users[j]
  {
    var access := IssueAccessToken(cfg, users[i], now);
    var rotated := users[i].(refreshToken := Some(drawn), refreshTokenExpiry := RefreshExpiry(cfg, now));
    Step(Success(TokenDto(access, drawn)), users[i := rotated])
  }

  /** The record Register inserts, before any token is issued. */
  function NewUser(id: Guid, dto: UserRegisterDto, hasher: PasswordHasher): User {
    User(id, dto.username, dto.email, hasher.hash(dto.password), None, DefaultTime)
  }

  /** Register fails with "User exists", changing nothing, exactly when the email is taken;
      otherwise it appends one user and leaves the stored ones as they were. */
  function Register(cfg: JwtConfig, hasher: PasswordHasher, users: seq<User>, dto: UserRegisterDto,
                    id: Guid, now: Time, drawn: string): (r: Step)
    ensures r.result.Failure? <==> exists j :: 0 <= j < |users| && users[j].email == dto.email
    ensures r.result.Failure? ==> r.result.error == UserExists && r.users == users
    ensures r.result.Success? ==> |r.users| == |users| + 1 && r.users[..|users|] == users
  {
    if FindByEmail(users, dto.email).Some? then Step(Failure(UserExists), users)
    else GenerateTokens(cfg, users + [NewUser(id, dto, hasher)], |users|, now, drawn)
  }

  /** Login fails with "Invalid credentials", changing nothing, unless the first user with the
      email has a hash the password verifies against; it never adds or removes a user. */
  function Login(cfg: JwtConfig, hasher: PasswordHasher, users: seq<User>, dto: UserLoginDto,
                 now: Time, drawn: string): (r: Step)
    ensures |r.users| == |users|
    ensures r.result.Failure? ==> r.result.error == InvalidCredentials && r.users == users
    ensures r.result.Success? ==>
              exists j :: 0 <= j < |users| && users[j].email == dto.email
                          && hasher.verify(dto.password, users[j].passwordHash)
  {
    match FindByEmail(users, dto.email)
    case None => Step(Failure(InvalidCredentials), users)
    case Some(i) =>
      if hasher.verify(dto.password, users[i].passwordHash) then GenerateTokens(cfg, users, i, now, drawn)
      else Step(Failure(InvalidCredentials), users)
  }

  /** Refresh fails with "Invalid refresh token", changing nothing, exactly when no user holds the
      presented token unexpired; it never adds or removes a user. */
  function Refresh(cfg: JwtConfig, users: seq<User>, presented: string, now: Time, drawn: string): (r: Step)
    ensures |r.users| == |users|
    ensures r.result.Failure? <==> forall j :: 0 <= j < |users| ==> !HasLiveToken(users[j], presented, now)
    ensures r.result.Failure? ==> r.result.error == InvalidRefreshToken && r.users == users
  {
    match FindByRefreshToken(users, presented, now)
    case None => Step(Failure(InvalidRefreshToken), users)
    case Some(i) => GenerateTokens(cfg, users, i, now, drawn)
  }

  /** Issuance returns `drawn`, stores it with expiry now + refresh lifetime in the user's
      record only, keeps that record's identity and hash, and signs the user's id and email. */
  lemma GenerateTokensRotates(cfg: JwtConfig, users: seq<User>, i: nat, now: Time, drawn: string)
    requires i < |users|
    ensures var s := GenerateTokens(cfg, users, i, now, drawn);
      && s.result.Success?
      && s.result.value.refreshToken == drawn
      && s.result.value.accessToken == AccessToken(users[i].id, users[i].email, cfg.issuer, cfg.audience,
                                                   now + cfg.accessTokenExpiryMinutes * TicksPerMinute, cfg.key)
      && |s.users| == |users|
      && s.users[i].refreshToken == Some(drawn)
      && s.users[i].refreshTokenExpiry == now + cfg.refreshTokenExpiryDays * TicksPerDay
      && s.users[i].id == users[i].id && s.users[i].username == users[i].username
      && s.users[i].email == users[i].email && s.users[i].passwordHash == users[i].passwordHash
      && (forall j :: 0 <= j < |users| && j != i ==> s.users[j] == users[j])
  {
  }

  /** Issuance keeps emails unique, and keeps refresh tokens unique when `drawn` is held by nobody. */
  lemma GenerateTokensKeepsInvariants(cfg: JwtConfig, users: seq<User>, i: nat, now: Time, drawn: string)
    requires i < |users|
    ensures var s := GenerateTokens(cfg, users, i, now, drawn);
      && (UniqueEmails(users) ==> UniqueEmails(s.users))
      && (UniqueRefreshTokens(users) && Unheld(users, drawn) ==> UniqueRefreshTokens(s.users))
  {
  }

  /** Registering an email some stored user already has fails with "User exists" and changes nothing. */
  lemma RegisterExistingEmail(cfg: JwtConfig, hasher: PasswordHasher, users: seq<User>, dto: UserRegisterDto,
                              id: Guid, now: Time, drawn: string, k: nat)
    requires k < |users| && users[k].email == dto.email
    ensures Register(cfg, hasher, users, dto, id, now, drawn) == Step(Failure(UserExists), users)
  {
    var p := (u: User) => u.email == dto.email;
    assert p(users[k]);
  }

  /** Registering a drawn email appends exactly one user, with the given name and email, the hash of
      the password and the returned refresh token, and keeps emails unique. */
  lemma RegisterFreshEmail(cfg: JwtConfig, hasher: PasswordHasher, users: seq<User>, dto: UserRegisterDto,
                           id: Guid, now: Time, drawn: string)
    requires forall j :: 0 <= j < |users| ==> users[j].email != dto.email
    ensures var s := Register(cfg, hasher, users, dto, id, now, drawn);
      var u := User(id, dto.username, dto.email, hasher.hash(dto.password), Some(drawn), RefreshExpiry(cfg, now));
      && s.users == users + [u]
      && s.result == Success(TokenDto(IssueAccessToken(cfg, u, now), drawn))
      && (UniqueEmails(users) ==> UniqueEmails(s.users))
  {
    var u := User(id, dto.username, dto.email, hasher.hash(dto.password), Some(drawn), RefreshExpiry(cfg, now));
    assert (users + [NewUser(id, dto, hasher)])[|users| := u] == users + [u];
  }

  /** Every Login failure is the same "Invalid credentials" with the store unchanged, whether the
      email is unknown or the password does not verify; with unique emails, Login succeeds exactly
      when the user with that email verifies the password, and then issues tokens for that user. */
  lemma LoginOutcome(cfg: JwtConfig, hasher: PasswordHasher, users: seq<User>, dto: UserLoginDto,
                     now: Time, drawn: string)
    requires UniqueEmails(users)
    ensures var s := Login(cfg, hasher, users, dto, now, drawn);
      && (s.result.Failure? ==> s == Step(Failure(InvalidCredentials), users))
      && (s.result.Success? <==>
            exists j :: 0 <= j < |users| && users[j].email == dto.email
                        && hasher.verify(dto.password, users[j].passwordHash))
      && (forall j :: 0 <= j < |users| && users[j].email == dto.email
                      && hasher.verify(dto.password, users[j].passwordHash)
                      ==> s == GenerateTokens(cfg, users, j, now, drawn))
  {
    var p := (u: User) => u.email == dto.email;
    match FindByEmail(users, dto.email)
    case None =>
    case Some(i) =>
      forall j | 0 <= j < |users| && users[j].email == dto.email
        ensures j == i
      {
        assert p(users[j]) && p(users[i]);
      }
  }

  /** A user registered with a password can log in with it, given a sound hasher. */
  lemma {:induction false} RegisterThenLogin(cfg: JwtConfig, hasher: PasswordHasher, users: seq<User>,
                                             dto: UserRegisterDto, id: Guid, now: Time, drawn: string,
                                             later: Time, fresh2: string)
    requires Sound(hasher)
    requires Register(cfg, hasher, users, dto, id, now, drawn).result.Success?
    ensures Login(cfg, hasher, Register(cfg, hasher, users, dto, id, now, drawn).users,
                  UserLoginDto(dto.email, dto.password), later, fresh2).result.Success?
  {
    var p := (u: User) => u.email == dto.email;
    assert FindByEmail(users, dto.email).None?;
    var after := Register(cfg, hasher, users, dto, id, now, drawn).users;
    RegisterFreshEmail(cfg, hasher, users, dto, id, now, drawn);
    assert after[|users|].email == dto.email;
    assert after[|users|].passwordHash == hasher.hash(dto.password);
    assert forall j :: 0 <= j < |users| ==> after[j] == users[j];
    assert FindByEmail(after, dto.email) == Some(|users|) by {
      var r := FindByEmail(after, dto.email);
      assert p(after[|users|]);
      assert r.Some?;
    }
    assert hasher.verify(dto.password, hasher.hash(dto.password));
  }

  /** Refresh succeeds exactly when some user holds the presented token unexpired at `now`, and then
      rotates a user who holds it; otherwise it fails with "Invalid refresh token" and changes nothing. */
  lemma RefreshOutcome(cfg: JwtConfig, users: seq<User>, presented: string, now: Time, drawn: string)
    ensures var s := Refresh(cfg, users, presented, now, drawn);
      && (s.result.Failure? ==> s == Step(Failure(InvalidRefreshToken), users))
      && (s.result.Success? <==> exists j :: 0 <= j < |users| && HasLiveToken(users[j], presented, now))
      && (s.result.Success? ==> exists j :: 0 <= j < |users| && HasLiveToken(users[j], presented, now)
                                              && s == GenerateTokens(cfg, users, j, now, drawn))
  {
    var p := (u: User) => HasLiveToken(u, presented, now);
    match FindByRefreshToken(users, presented, now)
    case None =>
      forall j | 0 <= j < |users|
        ensures !HasLiveToken(users[j], presented, now)
      {
        assert !p(users[j]);
      }
    case Some(i) =>
      assert p(users[i]);
  }

  /** Rotation: once a refresh that drew a different token has succeeded, the presented token is
      held by nobody, so presenting it again (at any time, with any new draw) fails and changes nothing. */
  lemma RefreshRotatesOut(cfg: JwtConfig, users: seq<User>, presented: string, now: Time, drawn: string,
                          later: Time, fresh2: string)
    requires UniqueRefreshTokens(users)
    requires drawn != presented
    requires Refresh(cfg, users, presented, now, drawn).result.Success?
    ensures var after := Refresh(cfg, users, presented, now, drawn).users;
      && Unheld(after, presented)
      && Refresh(cfg, after, presented, later, fresh2) == Step(Failure(InvalidRefreshToken), after)
  {
    RefreshOutcome(cfg, users, presented, now, drawn);
    var s := Refresh(cfg, users, presented, now, drawn);
    var i :| 0 <= i < |users| && HasLiveToken(users[i], presented, now)
             && s == GenerateTokens(cfg, users, i, now, drawn);
    forall j | 0 <= j < |s.users|
      ensures s.users[j].refreshToken != Some(presented)
    {
      if j < i {
        assert users[j].refreshToken != users[i].refreshToken;
      } else if i < j {
        assert users[i].refreshToken != users[j].refreshToken;
      }
    }
    RefreshOutcome(cfg, s.users, presented, later, fresh2);
  }

  /** The register-then-refresh scenario: T1 from Register, T2 from Refresh(T1) differs from T1,
      a second Refresh(T1) fails, and Refresh(T2) succeeds while T2 is unexpired. */
  lemma RegisterRefreshScenario(cfg: JwtConfig, hasher: PasswordHasher, users: seq<User>, dto: UserRegisterDto,
                                id: Guid, t0: Time, t1: Time, t2: Time, t3: Time,
                                f1: string, f2: string, f3: string, f4: string)
    requires UniqueRefreshTokens(users) && Unheld(users, f1) && Unheld(users, f2)
    requires forall j :: 0 <= j < |users| ==> users[j].email != dto.email
    requires f1 != f2
    requires t1 < RefreshExpiry(cfg, t0) && t3 < RefreshExpiry(cfg, t1)
    ensures var s1 := Register(cfg, hasher, users, dto, id, t0, f1);
      var s2 := Refresh(cfg, s1.users, f1, t1, f2);
      var s3 := Refresh(cfg, s2.users, f1, t2, f3);
      var s4 := Refresh(cfg, s3.users, f2, t3, f4);
      && s1.result.Success? && s1.result.value.refreshToken == f1
      && s2.result.Success? && s2.result.value.refreshToken == f2
      && s3 == Step(Failure(InvalidRefreshToken), s2.users)
      && s4.result.Success?
  {
    ScenarioRegister(cfg, hasher, users, dto, id, t0, t1, f1, f2);
    var s1 := Register(cfg, hasher, users, dto, id, t0, f1);
    ScenarioRefresh(cfg, s1.users, |users|, f1, f2, f3, f4, t0, t1, t2, t3);
  }

  /** The scenario's registration: the new user at the end holds T1, live until after `t1`; refresh
      tokens stay unique, and nobody holds the next draw. */
  lemma ScenarioRegister(cfg: JwtConfig, hasher: PasswordHasher, users: seq<User>, dto: UserRegisterDto,
                         id: Guid, t0: Time, t1: Time, f1: string, f2: string)
    requires UniqueRefreshTokens(users) && Unheld(users, f1) && Unheld(users, f2)
    requires forall j :: 0 <= j < |users| ==> users[j].email != dto.email
    requires f1 != f2 && t1 < RefreshExpiry(cfg, t0)
    ensures var s1 := Register(cfg, hasher, users, dto, id, t0, f1);
      && s1.result.Success? && s1.result.value.refreshToken == f1
      && |s1.users| == |users| + 1
      && s1.users[|users|].refreshToken == Some(f1)
      && s1.users[|users|].refreshTokenExpiry == RefreshExpiry(cfg, t0)
      && HasLiveToken(s1.users[|users|], f1, t1)
      && UniqueRefreshTokens(s1.users) && Unheld(s1.users, f2)
  {
    RegisterFreshEmail(cfg, hasher, users, dto, id, t0, f1);
    var s1 := Register(cfg, hasher, users, dto, id, t0, f1);
    var n := |users|;
    assert UniqueRefreshTokens(s1.users) by {
      GenerateTokensKeepsInvariants(cfg, users + [NewUser(id, dto, hasher)], n, t0, f1);
    }
    assert Unheld(s1.users, f2) by {
      forall j | 0 <= j < |s1.users|
        ensures s1.users[j].refreshToken != Some(f2)
      {
        if j < n {
          assert s1.users[j] == users[j];
        }
      }
    }
  }

  /** The scenario's three refreshes, from a table where the user at `n` holds T1 live at `t1`. */
  lemma ScenarioRefresh(cfg: JwtConfig, u1: seq<User>, n: nat, f1: string, f2: string, f3: string, f4: string,
                        t0: Time, t1: Time, t2: Time, t3: Time)
    requires n < |u1| && UniqueRefreshTokens(u1) && Unheld(u1, f2) && f1 != f2
    requires u1[n].refreshToken == Some(f1) && HasLiveToken(u1[n], f1, t1)
    requires t3 < RefreshExpiry(cfg, t1)
    ensures var s2 := Refresh(cfg, u1, f1, t1, f2);
      var s3 := Refresh(cfg, s2.users, f1, t2, f3);
      var s4 := Refresh(cfg, s3.users, f2, t3, f4);
      && s2.result.Success? && s2.result.value.refreshToken == f2
      && s3 == Step(Failure(InvalidRefreshToken), s2.users)
      && s4.result.Success?
  {
    RefreshOutcome(cfg, u1, f1, t1, f2);
    var s2 := Refresh(cfg, u1, f1, t1, f2);
    var i :| 0 <= i < |u1| && HasLiveToken(u1[i], f1, t1) && s2 == GenerateTokens(cfg, u1, i, t1, f2);
    assert i == n;
    GenerateTokensKeepsInvariants(cfg, u1, n, t1, f2);
    RefreshRotatesOut(cfg, u1, f1, t1, f2, t2, f3);
    var s3 := Refresh(cfg, s2.users, f1, t2, f3);
    assert HasLiveToken(s3.users[n], f2, t3);
    RefreshOutcome(cfg, s3.users, f2, t3, f4);
  }
}
