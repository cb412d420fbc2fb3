# UsuarioService account model

A Dafny model of the account service of the Fortaleza Cultural API
(`UsuarioService`). The service registers users, looks them up by id, and
logs them in with email and password. Here it is modelled over an abstract
store as pure functions from a store and an input to a result and a new
store.

- `Wrappers`: `Option` and `Result`. They stand for a `Mono` that completes
  with a value, completes empty, or signals an error.
- `Model`: the entity `Usuario`, the enumeration `TipoUsuario` with
  `valueOf`, and the request records `UsuarioDto` and `LoginRequestDto`.
- `AsciiCase`: the upper-casing applied to the account-type text.
- `PasswordEncoding`: the password encoder as a pair of functions,
  `encode` and `matches`. `MatchesOwnEncoding(enc)` is the encoder's
  promise that `matches(p, encode(p))` holds. Lemmas that need it take it
  as a hypothesis.
- `Repository`: the store, `Store(rows, nextId)`. `rows` maps ids to
  records and `nextId` is the id the identity sequence hands out next. It
  provides `FindById`, `FindByEmail` (exact match), `Save` (insert under a
  fresh id) and the invariant `Valid`. `Valid` means ids are consistent and
  no two records share an email.
- `UsuarioService`: `RegistrarUsuario`, `BuscarUsuarioPorId`,
  `LoginUsuario` and the error type.
- `ServiceProperties`: lemmas relating the operations to one another.
- `Sessions`: any sequence of requests served one after another, each
  registration with its own `encode`, with
  lemmas over such sequences.

The clock reading (`LocalDateTime.now()`) is the parameter `now`. The
password encoder is the parameter `enc`.

## Model

| member | source | states |
|---|---|---|
| `AsciiCase.ToUpperCase` | src/main/java/com/fortaleza_cultural/api/service/UsuarioService.java:51 | the type text is upper-cased letter by letter: same length, and each position holds the capital of the input's character there |
| `AsciiCase.CaseVariantUpperCases` | src/main/java/com/fortaleza_cultural/api/service/UsuarioService.java:51 | the texts that upper-case to an upper-case word are exactly the spellings of that word with each letter in either case |
| `Model.TipoValueOf` | src/main/java/com/fortaleza_cultural/api/model/TipoUsuario.java:6-16 | `valueOf` is the inverse of the constant names: it yields type `t` iff the text equals `t`'s name, and fails iff the text is no constant's name |
| `Repository.FindByEmail` | src/main/java/com/fortaleza_cultural/api/repository/UsuarioRepository.java:13-19 | a record is found iff some stored record has exactly that email; the one found has that email and is stored; with unique emails it is that record |
| `Repository.Save` | src/main/java/com/fortaleza_cultural/api/service/UsuarioService.java:58-59 | a new record is inserted under the next id, which is fresh in a valid store; the returned record carries that id; every other record is unchanged |
| `UsuarioService.RegistrarUsuario` | src/main/java/com/fortaleza_cultural/api/service/UsuarioService.java:38-61 | a taken email fails with the duplicate error whatever the type text; otherwise an unknown type fails with the type error; both leave the store unchanged; success happens iff the email is free and the type text names a type; the saved record copies name and email, stores `encode(senha)`, the parsed type and the clock value, under a fresh id, adding exactly one record |
| `UsuarioService.BuscarUsuarioPorId` | src/main/java/com/fortaleza_cultural/api/service/UsuarioService.java:70-72 | returns exactly the stored record for the id, or empty iff the id is absent |
| `UsuarioService.LoginUsuario` | src/main/java/com/fortaleza_cultural/api/service/UsuarioService.java:82-96 | an unknown email fails with the not-found error and a stored one never does; any success is the token `"fake-jwt-token:" + email` and needs a stored record with that email whose hash the password matches; with unique emails it succeeds iff such a record exists; a failure is the not-found or the password error |
| `UsuarioService.ParseTipo` | src/main/java/com/fortaleza_cultural/api/service/UsuarioService.java:50-54 | the type text denotes `t` iff its upper-cased form is `t`'s name, and is rejected iff the upper-cased form is neither "NORMAL" nor "ORGANIZADOR" |
| `ServiceProperties.ParseTipoOrganizadorAnyCase` | src/main/java/com/fortaleza_cultural/api/service/UsuarioService.java:51 | the texts parsed as ORGANIZADOR are exactly the case variants of "organizador" |
| `ServiceProperties.ParseTipoNormalAnyCase` | src/main/java/com/fortaleza_cultural/api/service/UsuarioService.java:51 | the texts parsed as NORMAL are exactly the case variants of "normal" |
| `ServiceProperties.ParseTipoRejectsOthers` | src/main/java/com/fortaleza_cultural/api/service/UsuarioService.java:50-54 | "manager", "organizer" and the empty text name no account type |
| `ServiceProperties.DuplicateBeforeInvalidTipo` | src/main/java/com/fortaleza_cultural/api/service/UsuarioService.java:40-54 | a taken email with an invalid type text fails with the duplicate error, not the type error, and the store is unchanged |
| `ServiceProperties.RegistrarPreservesValid` | src/main/java/com/fortaleza_cultural/api/service/UsuarioService.java:40-59 | registration keeps the store invariant: consistent ids and no two records sharing an email |
| `ServiceProperties.SecondRegistrationFails` | src/main/java/com/fortaleza_cultural/api/service/UsuarioService.java:40-41 | after a successful registration, registering again with the same email fails with the duplicate error and saves nothing |
| `ServiceProperties.RegisterThenFind` | src/main/java/com/fortaleza_cultural/api/service/UsuarioService.java:58-72 | after a successful registration, lookup by the new id returns the saved record, and lookup by any other id answers as before |
| `ServiceProperties.RegisterThenLogin` | src/main/java/com/fortaleza_cultural/api/service/UsuarioService.java:40-89 | with an encoder whose hashes match their own passwords, in any store, registering then logging in with the same email and password yields `"fake-jwt-token:" + email` |
| `ServiceProperties.LoginWrongPassword` | src/main/java/com/fortaleza_cultural/api/service/UsuarioService.java:85-93 | with unique emails, login with a stored email and a password its hash does not match fails with the password error |
| `Sessions.Handle` | src/main/java/com/fortaleza_cultural/api/service/UsuarioService.java:38-96 | each request is answered by its operation: a lookup by `BuscarUsuarioPorId`, a login by `LoginUsuario`, neither changing the store; a registration answers and changes the store exactly as `RegistrarUsuario` does with that call's own `encode` |
| `Sessions.RunPreservesValid` | src/main/java/com/fortaleza_cultural/api/service/UsuarioService.java:40-59 | any sequence of requests keeps the invariant and never changes or removes an existing record |
| `Sessions.ReadOnlyRunUnchanged` | src/main/java/com/fortaleza_cultural/api/service/UsuarioService.java:70-96 | a sequence of lookups and logins leaves the store exactly as it was |
| `Sessions.LoginSurvivesLaterRequests` | src/main/java/com/fortaleza_cultural/api/service/UsuarioService.java:40-89 | once an account is registered, whatever requests follow, logging in with its email and password still yields the token |

## Left out

- HTTP layer (`UsuarioController`): status codes and response wrapping are framework plumbing.
- Security configuration (`SecurityConfig`): filter-chain and bean wiring, with no logic of the service's own.
- bcrypt internals: `encode` and `matches` are functions supplied by the caller. `matches(p, encode(p))` is the hypothesis `MatchesOwnEncoding` and is not proved. bcrypt's random salt is modelled by the caller's choice of `encode`: in `Sessions` each registration request carries its own `encode`, while `matches` is shared by the whole session. Within one call `encode` is deterministic. The claim that a different password fails to match "with overwhelming probability" is probabilistic and is left out.
- R2DBC persistence: the table is a map plus an identity counter. Database constraints, update-by-`save` of a record that already has an id, and store failures are left out.
- Repository.FindByEmail: with several records sharing an email it returns the one with the least id. The database's own behaviour in that case is not modelled. Such stores arise only from the concurrent race below, and `Valid` stores never contain them.
- Email comparison is exact string equality, for both the duplicate check and login. A database column with a case-insensitive collation would treat `A@x` and `a@x` as one email; that is not modelled.
- Concurrency: Reactor's asynchrony and the check-then-insert race between two concurrent registrations of one email are left out. The model is sequential only.
- Clock: `LocalDateTime.now()` is the parameter `now`, and `Timestamp` is an integer the model only copies.
- AsciiCase.ToUpperCase: only ASCII letters are upper-cased. Java's `toUpperCase` is Unicode- and locale-sensitive: it maps, for example, the dotless `ı` to `I`. Such non-ASCII spellings are therefore not accepted here.
- Ids are unbounded integers; the 64-bit width of `Long` is not modelled.
- Null inputs: a null type text throws a `NullPointerException` the service does not catch. Null fields are not representable here.
- Error messages: each error keeps its payload (the email or the type text), but the message wording is left out.
- The password is hashed (line 48) before the type text is parsed (line 51). `encode` is pure here, so that order cannot be observed, and the model parses first.
- DTO classes: `UsuarioDto` and `LoginRequestDto` are plain records. `LoginResponseDto` is not used by the service.
