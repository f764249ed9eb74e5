/**
 * The global exception handler: the status code and the body message of the
 * JSON error response, decided from the exception's message by substring
 * tests in a fixed order.
 */
module ErrorHandling {
  import opened Text
  import opened Entities
  import AuthSpec

  const InternalErrorMessage: string := "An internal error occurred."

  /** The status and the `error` field of the response body. */
  datatype ErrorResponse = ErrorResponse(status: int, error: string)

  /** The status chosen by the substring tests, one of the four the middleware writes. */
  function StatusFor(message: string): (r: int)
    ensures r == 404 || r == 401 || r == 409 || r == 500
  {
    if Contains(message, "not found") then 404
    else if Contains(message, "Invalid credentials") || Contains(message, "Invalid refresh token") then 401
    else if Contains(message, "linked products") then 409
    else 500
  }

  /** The response for an exception with the given message: "not found" wins over every other
      test; then the two authentication messages give 401; then "linked products" gives 409;
      anything else is a 500 whose body hides the message. A non-500 body is the message
      verbatim. */
  function HandleException(message: string): (r: ErrorResponse)
    ensures r.status in {404, 401, 409, 500}
    ensures r.status == 404 <==> Contains(message, "not found")
    ensures r.status == 401 <==>
              !Contains(message, "not found") &&
              (Contains(message, "Invalid credentials") || Contains(message, "Invalid refresh token"))
    ensures r.status == 409 <==>
              !Contains(message, "not found") && !Contains(message, "Invalid credentials")
              && !Contains(message, "Invalid refresh token") && Contains(message, "linked products")
    ensures r.status != 500 ==> r.error == message
    ensures r.status == 500 ==> r.error == InternalErrorMessage
  {
    var status := StatusFor(message);
    ErrorResponse(status, if status != 500 then message else InternalErrorMessage)
  }

  /** A message that matches none of the four patterns becomes a 500 with the generic body. */
  lemma FallsThrough(m: string)
    requires !Contains(m, "not found") && !Contains(m, "Invalid credentials")
    requires !Contains(m, "Invalid refresh token") && !Contains(m, "linked products")
    ensures HandleException(m) == ErrorResponse(500, InternalErrorMessage)
  {
  }

  /** A message with "not found" is a 404, whatever else it contains. */
  lemma NotFoundWhenMatched(m: string)
    requires Contains(m, "not found")
    ensures HandleException(m) == ErrorResponse(404, m)
  {
  }

  /** A message with "linked products" and none of the earlier patterns is a conflict. */
  lemma ConflictWhenLinked(m: string)
    requires !Contains(m, "not found") && !Contains(m, "Invalid credentials")
    requires !Contains(m, "Invalid refresh token") && Contains(m, "linked products")
    ensures HandleException(m) == ErrorResponse(409, m)
  {
  }

  /** A message with one of the two authentication patterns and no "not found" is unauthorised. */
  lemma UnauthorisedWhenInvalid(m: string)
    requires !Contains(m, "not found")
    requires Contains(m, "Invalid credentials") || Contains(m, "Invalid refresh token")
    ensures HandleException(m) == ErrorResponse(401, m)
  {
  }

  /** "Product not found" gives 404 with the message as body. */
  lemma ProductNotFoundGives404()
    ensures HandleException(ProductNotFound.Message()) == ErrorResponse(404, "Product not found")
  {
    var m := "Product not found";
    assert m[8..] == "not found";
    ContainsAt(m, "not found", 8);
    NotFoundWhenMatched(m);
  }

  /** "Category not found" gives 404 with the message as body. */
  lemma CategoryNotFoundGives404()
    ensures HandleException(CategoryNotFound.Message()) == ErrorResponse(404, "Category not found")
  {
    var m := "Category not found";
    assert m[9..] == "not found";
    ContainsAt(m, "not found", 9);
    NotFoundWhenMatched(m);
  }

  /** Deleting a category that still has products gives 409 with the message as body. */
  lemma LinkedProductsGives409()
    ensures HandleException(CategoryHasLinkedProducts.Message()) ==
              ErrorResponse(409, "Category has linked products")
  {
    var m := "Category has linked products";
    assert forall i :: 0 <= i < |m| ==> m[i] != 'f' && m[i] != 'I';
    assert m[13..] == "linked products";
    ContainsAt(m, "linked products", 13);
    NotContainsWithoutChar(m, "not found", 4);
    NotContainsWithoutChar(m, "Invalid credentials", 0);
    NotContainsWithoutChar(m, "Invalid refresh token", 0);
    ConflictWhenLinked(m);
  }

  /** Registration's "User exists" matches none of the patterns, so it becomes a 500 with the
      generic body. */
  lemma UserExistsGives500()
    ensures HandleException(AuthSpec.AuthError.UserExists.Message()) == ErrorResponse(500, InternalErrorMessage)
  {
    var m := "User exists";
    assert forall i :: 0 <= i < |m| ==> m[i] != 'f' && m[i] != 'I' && m[i] != 'l';
    NotContainsWithoutChar(m, "not found", 4);
    NotContainsWithoutChar(m, "Invalid credentials", 0);
    NotContainsWithoutChar(m, "Invalid refresh token", 0);
    NotContainsWithoutChar(m, "linked products", 0);
    FallsThrough(m);
  }

  /** Bad credentials give 401 with the message as body. */
  lemma InvalidCredentialsGives401()
    ensures HandleException(AuthSpec.AuthError.InvalidCredentials.Message()) ==
              ErrorResponse(401, "Invalid credentials")
  {
    var m := "Invalid credentials";
    assert m[0..] == m;
    ContainsAt(m, m, 0);
    assert forall i :: 0 <= i < |m| ==> m[i] != 'f';
    NotContainsWithoutChar(m, "not found", 4);
    UnauthorisedWhenInvalid(m);
  }

  /** A bad refresh token gives 401 with the message as body. */
  lemma InvalidRefreshTokenGives401()
    ensures HandleException(AuthSpec.AuthError.InvalidRefreshToken.Message()) ==
              ErrorResponse(401, "Invalid refresh token")
  {
    var m := "Invalid refresh token";
    assert m[0..] == m;
    ContainsAt(m, m, 0);
    assert forall i :: 0 <= i < |m| ==> m[i] != 'u';
    NotContainsWithoutChar(m, "not found", 6);
    UnauthorisedWhenInvalid(m);
  }
}
