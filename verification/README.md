# Social-posting backend: credentials, tokens, posts and comments

This project models the decision logic of a small FastAPI social-posting backend:

- **Registration.** A user registers an email and password. The password is stored only as a bcrypt hash, and the email must be unique.
- **Login.** The email/password pair is authenticated, and the user receives a bearer JWT. The token's subject is the email and it expires 30 minutes after issue.
- **Token check.** A presented token resolves to a user record or to one of two 401 errors: "Token has expired" or "Could not validate credentials".
- **Posts and comments.** Users create posts and comments. They list posts, list the comments on a post, and view a post together with its comments. A comment on a missing post is refused with 404 "Post not found".

Each database table is an immutable sequence of rows in rowid order, and the three tables form one `Store` value. Each route is a pure function:

- a route that writes returns a `Transition`, which holds the new store and either the response or the raised exception;
- a route that only reads returns a value and gets no store back, so it cannot change the store.

Cryptography is modelled symbolically:

- **bcrypt.** The password is encoded as UTF-8. passlib refuses a secret over 4096 bytes or one containing a NUL byte with a `ValueError`, which reaches the client as a 500. Otherwise only the first 72 bytes are hashed. The hash is the term `Bcrypt(salt, key)` over those bytes. Verifying a password applies the same refusals, rebuilds the term with the stored salt and compares it with the stored one.
- **JWT.** A token is either a parsed JWS or a string that does not parse. A parsed JWS holds an algorithm, the claims `sub`/`exp` and a signature. A valid signature is the term `Mac(key, alg, claims)`. The model assumes that nobody without the key can build that term.

Because of this, the facts the code depends on are proved, not assumed:

- "verify accepts exactly the passwords that share the first 72 bytes of the hashed one";
- "decode inverts encode until the expiry";
- "a tampered token is rejected".

The clock is an explicit `now` in Unix seconds. The salt bcrypt would draw at random is an explicit `salt` argument.

Modules, one per component: `Wrappers` (Option/Result), `Errors` (the exceptions), `PasswordHasher`, `TokenCodec`, `Database` (schema, row ids, store invariant), `Security`, `UserRoutes`, `PostRoutes`.

## Model

| member | source | states |
|---|---|---|
| PasswordHasher.Hash | app/security.py:42-43 | hashing is refused exactly for a password over the size limit or containing NUL (a NUL password always is); otherwise the hash carries the given salt, verifies the password it was made from, and verifies exactly those acceptable passwords whose first 72 UTF-8 bytes equal the password's |
| PasswordHasher.Verify | app/security.py:46-47 | verification is refused exactly for an unacceptable password; a successful match implies the password's first 72 bytes are the key stored in the hash |
| PasswordHasher.Utf8 | app/security.py:42-47 | the UTF-8 encoding is between one and four bytes per character and holds a NUL byte exactly when the password holds U+0000 |
| PasswordHasher.Key | app/security.py:42-47 | the bytes bcrypt hashes are the first at most 72 bytes of the encoding, and the whole encoding when it is shorter than 72 bytes |
| PasswordHasher.TruncatedPasswordsCollide | app/security.py:42-47 | a password of 72 ASCII characters followed by `x` verifies against the hash of the same 72 characters followed by `y` |
| PasswordHasher.SaltedHashesDiffer | app/security.py:42-47 | one acceptable password hashed under two different salts gives two different hashes, and each of them verifies that password |
| TokenCodec.Encode | app/security.py:37-38 | the encoded token is a JWS that carries exactly the given claims under the given algorithm |
| TokenCodec.Decode | app/security.py:73 | a valid decode implies the token is exactly the signed encoding of its claims under an accepted algorithm and is not past its `exp`; the result is Expired exactly when the token is well signed and its `exp` lies before `now` |
| TokenCodec.DecodeEncode | app/security.py:32-39 | decoding an encoded token gives back its claims up to and including the expiry second, and gives Expired after it |
| TokenCodec.TamperedTokenRejected | app/security.py:73 | a token whose claims were changed after signing, or which was signed with another key, decodes as Malformed |
| Database.NextRowId | app/routers/post.py:37 | a new row id is larger than every existing id; it is 1 for an empty table and otherwise one more than an existing (the largest) id |
| Database.InsertUser | app/database.py:21-27 | an insert fails with the UNIQUE violation exactly when the email is already stored; otherwise it appends exactly one row with that email and hash under a fresh id, and keeps emails unique and ids ascending |
| Security.AccessTokenExpireMinutes | app/security.py:28-29 | the token validity window is positive and amounts to 1800 seconds (30 minutes) |
| Security.IssueToken | app/security.py:28-39 | the token decodes to subject `email` and expiry `now + minutes*60` at every time up to that expiry, and to Expired after it |
| Security.CreateAccessToken | app/security.py:32-39 | the token's subject is `email` and it stays valid for exactly 30 minutes (1800 s) after `now`, then reports expiry |
| Security.GetUser | app/security.py:50-55 | the result is a stored row with that email, or nothing exactly when no row has that email; with unique emails it is the one row with that email |
| Security.AuthenticateUser | app/security.py:58-65 | an unknown email always gets the credentials error, whatever the password; for an acceptable password every failure is that same error; a refused password for a stored email raises the hasher's error; a success is a stored row with that email whose hash verifies the password; with unique emails it succeeds exactly when such a row exists |
| Security.GetCurrentUser | app/security.py:68-89 | it raises "Token has expired" exactly when decoding reports expiry; every other failure is the credentials error; a success is a stored row named by the `sub` of a validly decoded token; a valid token whose subject is stored always succeeds |
| Security.IssuedTokenIdentifiesUser | app/security.py:86-89 | a token issued for a stored user resolves to exactly that user until it expires, and to "Token has expired" afterwards |
| Security.NegativeWindowTokenExpired | tests/routers/test_post.py:85-97 | a token issued with a negative validity window gets "Token has expired" at the time of issue |
| UserRoutes.Register | app/routers/user.py:18-31 | a stored email gets 400 "A user with that email already exists" and the store is unchanged; a fresh email with a password the hasher refuses gets the hasher's error and the store is unchanged; otherwise it answers `{"detail": "User created"}` (not the new record), and exactly one row is appended with that email, the hash of the password and a fresh id; posts and comments are unchanged; unique emails and the whole store invariant are preserved |
| UserRoutes.Login | app/routers/user.py:34-38 | an unknown email always gets the 401 credentials error; for an acceptable password every failure is that error, otherwise the failure may be the hasher's error; a success requires a stored row whose hash verifies, and with unique emails such a row guarantees success; a success returns token type "bearer" and a token whose subject is the email, valid for 30 minutes |
| UserRoutes.WrongPasswordLikeUnknownEmail | app/security.py:60-64 | a password that fails verification for a stored email and an unknown email give the identical login result |
| UserRoutes.RefusedPasswordRevealsAccount | app/security.py:60-63 | a password the hasher refuses gets the hasher's error for a stored email but the credentials error for an unknown one, so the two results differ |
| UserRoutes.AppendedUserAuthenticates | app/security.py:58-65 | a row appended for an email no earlier row holds is the one authentication returns for every password its hash verifies |
| UserRoutes.RegisterThenLogin | app/routers/user.py:19-38 | registering a fresh email succeeds exactly for an acceptable password, and then logging in with that pair succeeds with a token for that email |
| UserRoutes.LoginTokenIdentifiesUser | app/routers/user.py:36-38 | until it expires, the token a login returns resolves to exactly the row that login authenticated |
| UserRoutes.RegisterTwiceRefused | tests/routers/test_user.py:18-26 | once a fresh email is registered, registering it again is refused with 400 and changes nothing |
| PostRoutes.FindPost | app/routers/post.py:19-23 | the result is a stored post with that id, or nothing exactly when no post has that id |
| PostRoutes.CreatePost | app/routers/post.py:31-38 | exactly one post is appended under an id larger than all existing ones, with the given body and no user id, and it is returned; users and comments are unchanged; the store invariant is preserved |
| PostRoutes.GetAllPosts | app/routers/post.py:41-48 | the listing is every stored post, in table order |
| PostRoutes.CreatedPostIsListed | app/routers/post.py:41-48 | a newly created post appears in the listing of all posts and is found by its id |
| PostRoutes.CreateComment | app/routers/post.py:51-62 | it fails with 404 "Post not found" exactly when no post has that id, and then the store is unchanged; otherwise exactly one comment with the given body and post id is appended under a fresh id and returned, and users and posts are unchanged; the store invariant is preserved |
| PostRoutes.GetCommentsOnPost | app/routers/post.py:65-70 | the result holds exactly the comments whose post id matches, and is no longer than the comment table |
| PostRoutes.NoCommentsListedEmpty | tests/routers/test_post.py:148-152 | a post id that no comment refers to lists no comments at all |
| PostRoutes.CommentsOnPostAppend | tests/routers/test_post.py:141-145 | appending a comment adds it, in order, to the end of its own post's listing and leaves every other post's listing as it was |
| PostRoutes.GetPostWithComments | app/routers/post.py:73-84 | it fails with 404 exactly when no post has that id; otherwise it returns that post together with exactly the listing `GetCommentsOnPost` gives for that id, in table order |
| PostRoutes.FreshPostHasNoComments | app/routers/post.py:54-57 | when every comment refers to an existing post, an id larger than every post id has no comments |
| PostRoutes.PostThenComment | tests/routers/test_post.py:155-165 | after creating a post and commenting on it, the post view shows that post with exactly that one comment |

## Left out

- Password hashing and token signing: the bcrypt and HS256 computations are symbolic terms. One-wayness, the impossibility of forging a token without the signing key, and constant-time comparison are assumptions of the symbolic model and are not proved. The program's signing key is the constant "1234" written in the source (app/security.py:14). So in the program anyone who reads the source can sign a token for any subject, and `TokenCodec.Decode` accepts such a token exactly as the program does.
- Token serialisation: the base64url/JSON compact form is not modelled. A token is its parsed structure, and `Unparseable` stands for every string that does not parse. Claims other than `sub` and `exp` are not modelled, and neither is a claim of the wrong JSON type.
- Time resolution: the clock is whole Unix seconds. python-jose also truncates `exp` to whole seconds, so no sub-second behaviour is lost.
- Extracting the bearer token from the `Authorization` header is not modelled. The OAuth2 scheme dependency does it and answers a missing header itself.
- Request-body validation (the 422 responses) and response-model validation are framework behaviour and are not modelled.
- Success status codes (201) are not modelled. Responses are the values the handlers return.
- The `root` route, which returns a fixed greeting, is not modelled.
- Database I/O, connection setup, the async query layer, logging, configuration and the app lifespan are not modelled.
- NOT NULL enforcement is not modelled. `posts.user_id` and `comments.user_id` are NOT NULL, and SQLite enforces that. `create_post` and `create_comment` write no `user_id`, so the program refuses both inserts with an IntegrityError. The response model would also reject a post without `user_id`. The model shows these routes as if the constraint were absent, with `None` in the `user_id` column. The foreign keys are not modelled either. Only the UNIQUE constraint on `users.email` is modelled.
- The user router is never mounted: the application includes only the post router. `UserRoutes.Register` and `UserRoutes.Login` model the handler functions as written.
- A new row id is always the largest id plus one. SQLite's fallback to a random unused rowid when the largest 64-bit id is taken is not modelled. All ids are unbounded integers, including the `post_id` a client passes in. In the program, a `post_id` outside SQLite's 64-bit range makes the driver raise an error (a 500) in `find_post` and `get_comments_on_post`. The model answers 404 or `[]` there instead.
- Post routes are not guarded by authentication, and posts and comments are not stamped with a user id. The source routes never call `get_current_user`, so the model does not either.
- Concurrency is not modelled: a race between two registrations of the same email is not covered. `Database.InsertUser` models the UNIQUE constraint that would reject the loser, and `UserRoutes.Register` never reaches that rejection when run sequentially.
- `TokenCodec.Decode` accepts a token at exactly its `exp` second, because python-jose reports expiry only when `exp < now`.
- `PasswordHasher.Hash` follows bcrypt backends that silently hash only the first 72 bytes, as passlib configures by default. Later `bcrypt` releases refuse longer secrets instead. The internal rounds and the cost factor are not modelled.
