/**
 * The authentication service over the shared unit of work: each call looks a
 * user up, then issues a token pair and writes the rotated refresh token back
 * into that user's record. Every method is proved to act exactly as the
 * matching step of the AuthSpec state machine, and to leave the product and
 * category stores alone.
 */
module Auth {
  import opened Wrappers
  import opened Entities
  import Repository
  import opened AuthSpec

  class AuthService {
    const uow: Repository.UnitOfWork
    const config: JwtConfig
    const hasher: PasswordHasher

    constructor (uow: Repository.UnitOfWork, config: JwtConfig, hasher: PasswordHasher)
      requires UniqueEmails(uow.users)
      ensures this.uow == uow && this.config == config && this.hasher == hasher
      ensures Valid()
    {
      this.uow := uow;
      this.config := config;
      this.hasher := hasher;
    }

    /** The store invariant the service keeps: the email is a unique login key. */
    ghost predicate Valid()
      reads uow
    {
      UniqueEmails(uow.users)
    }

    /** Issue a token pair for the user at `i`, overwriting its refresh token and expiry in place;
        `drawn` is the Base64 text of the 64 random bytes. */
    method GenerateTokens(i: nat, now: Time, drawn: string) returns (r: TokenDto)
      requires i < |uow.users|
      modifies uow
      ensures Success(r) == AuthSpec.GenerateTokens(config, old(uow.users), i, now, drawn).result
      ensures uow.users == AuthSpec.GenerateTokens(config, old(uow.users), i, now, drawn).users
      ensures uow.products == old(uow.products) && uow.categories == old(uow.categories)
    {
      var user := uow.users[i];
      var accessToken := IssueAccessToken(config, user, now);
      user := user.(refreshToken := Some(drawn));
      user := user.(refreshTokenExpiry := RefreshExpiry(config, now));
      uow.users := uow.users[i := user];
      r := TokenDto(accessToken, drawn);
    }

    method Register(dto: UserRegisterDto, newId: Guid, now: Time, drawn: string)
      returns (r: Result<TokenDto, AuthError>)
      requires Valid()
      modifies uow
      ensures Valid()
      ensures r == AuthSpec.Register(config, hasher, old(uow.users), dto, newId, now, drawn).result
      ensures uow.users == AuthSpec.Register(config, hasher, old(uow.users), dto, newId, now, drawn).users
      ensures uow.products == old(uow.products) && uow.categories == old(uow.categories)
    {
      var existing := FindByEmail(uow.users, dto.email);
      if existing.Some? {
        return Failure(UserExists);
      }
      RegisterFreshEmail(config, hasher, uow.users, dto, newId, now, drawn);
      var user := NewUser(newId, dto, hasher);
      uow.users := uow.users + [user];
      var tokens := GenerateTokens(|uow.users| - 1, now, drawn);
      r := Success(tokens);
    }

    method Login(dto: UserLoginDto, now: Time, drawn: string) returns (r: Result<TokenDto, AuthError>)
      requires Valid()
      modifies uow
      ensures Valid()
      ensures r == AuthSpec.Login(config, hasher, old(uow.users), dto, now, drawn).result
      ensures uow.users == AuthSpec.Login(config, hasher, old(uow.users), dto, now, drawn).users
      ensures uow.products == old(uow.products) && uow.categories == old(uow.categories)
    {
      var found := FindByEmail(uow.users, dto.email);
      if found.None? || !hasher.verify(dto.password, uow.users[found.value].passwordHash) {
        return Failure(InvalidCredentials);
      }
      GenerateTokensKeepsInvariants(config, uow.users, found.value, now, drawn);
      var tokens := GenerateTokens(found.value, now, drawn);
      r := Success(tokens);
    }

    method Refresh(presented: string, now: Time, drawn: string) returns (r: Result<TokenDto, AuthError>)
      requires Valid()
      modifies uow
      ensures Valid()
      ensures r == AuthSpec.Refresh(config, old(uow.users), presented, now, drawn).result
      ensures uow.users == AuthSpec.Refresh(config, old(uow.users), presented, now, drawn).users
      ensures uow.products == old(uow.products) && uow.categories == old(uow.categories)
    {
      var found := FindByRefreshToken(uow.users, presented, now);
      if found.None? {
        return Failure(InvalidRefreshToken);
      }
      GenerateTokensKeepsInvariants(config, uow.users, found.value, now, drawn);
      var tokens := GenerateTokens(found.value, now, drawn);
      r := Success(tokens);
    }
  }
}
