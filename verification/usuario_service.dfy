/** The account service (`UsuarioService`): registration, lookup by id and
    login, each a pure function of the store and its input. The password
    encoder and the clock are parameters. */
module UsuarioService {
  import opened Wrappers
  import opened Model
  import opened AsciiCase
  import opened PasswordEncoding
  import opened Repository

  /** The fixed text before the email in the placeholder login token. */
  const TokenPrefix: string := "fake-jwt-token:"

  /** The service's failures; each is an `IllegalArgumentException` in the
      application, whose message names the payload kept here. */
  datatype Error =
    | DuplicateEmail(email: string)   // the email is already registered
    | InvalidTipo(tipo: string)       // the type text names no account type
    | UserNotFound(email: string)     // no account has this email
    | PasswordMismatch                // the password does not fit the stored hash

  /** The outcome of an operation together with the store after it. */
  datatype Reply<+T> = Reply(result: Result<T, Error>, store: Store)

  /** The account-type text, upper-cased, then matched against the constant
      names of `TipoUsuario`. */
  function ParseTipo(text: string): (r: Option<TipoUsuario>)
    ensures forall t :: r == Some(t) <==> ToUpperCase(text) == TipoName(t)
    ensures r.None? <==>
      ToUpperCase(text) != "NORMAL" && ToUpperCase(text) != "ORGANIZADOR"
  {
    TipoValueOf(ToUpperCase(text))
  }

  /** `registrarUsuario`: reject a taken email; otherwise parse the type,
      hash the password, stamp the time `now`, and save. */
  function RegistrarUsuario(s: Store, dto: UsuarioDto, enc: PasswordEncoder, now: Timestamp)
    : (r: Reply<Usuario>)
    // A taken email fails first, whatever the type text says.
    ensures HasEmail(s.rows, dto.email) ==>
      r == Reply(Failure(DuplicateEmail(dto.email)), s)
    ensures !HasEmail(s.rows, dto.email) && (forall t :: ToUpperCase(dto.tipo) != TipoName(t)) ==>
      r == Reply(Failure(InvalidTipo(dto.tipo)), s)
    ensures r.result.Success? <==>
      !HasEmail(s.rows, dto.email) && exists t :: ToUpperCase(dto.tipo) == TipoName(t)
    ensures r.result.Failure? ==> r.store == s
    // The saved record: input fields copied, password hashed, type parsed, time stamped.
    ensures r.result.Success? ==>
      var u := r.result.value;
      && u.id == Some(s.nextId)
      && u.nome == dto.nome
      && u.email == dto.email
      && u.senhaHash == enc.encode(dto.senha)
      && TipoName(u.tipo) == ToUpperCase(dto.tipo)
      && u.criadoEm == now
    // Exactly one record is added, under a fresh id; the others are untouched.
    ensures r.result.Success? ==>
      && (Valid(s) ==> s.nextId !in s.rows)
      && r.store.rows.Keys == s.rows.Keys + {s.nextId}
      && r.store.rows[s.nextId] == r.result.value
      && (forall k :: k in s.rows && k != s.nextId ==> r.store.rows[k] == s.rows[k])
  {
    if FindByEmail(s, dto.email).Some? then
      Reply(Failure(DuplicateEmail(dto.email)), s)
    else
      match ParseTipo(dto.tipo)
      case None => Reply(Failure(InvalidTipo(dto.tipo)), s)
      case Some(tipo) =>
        var novo := Usuario(None, dto.nome, dto.email, enc.encode(dto.senha), tipo, now);
        var (saved, s') := Save(s, novo);
        Reply(Success(saved), s')
  }

  /** `buscarUsuarioPorId`: the stored record for `id`, or empty. */
  function BuscarUsuarioPorId(s: Store, id: int): (r: Option<Usuario>)
    ensures r.Some? <==> id in s.rows
    ensures r.Some? ==> r.value == s.rows[id]
  {
    FindById(s, id)
  }

  /** `loginUsuario`: look the user up by email, check the password against
      the stored hash, and answer the placeholder token. */
  function LoginUsuario(s: Store, req: LoginRequestDto, enc: PasswordEncoder)
    : (r: Result<string, Error>)
    ensures !HasEmail(s.rows, req.email) ==> r == Failure(UserNotFound(req.email))
    ensures HasEmail(s.rows, req.email) ==> r != Failure(UserNotFound(req.email))
    ensures r.Success? ==>
      && r.value == TokenPrefix + req.email
      && exists k :: k in s.rows && s.rows[k].email == req.email
                  && enc.matches(req.senha, s.rows[k].senhaHash)
    ensures r.Failure? ==> r.error in {UserNotFound(req.email), PasswordMismatch}
    ensures UniqueEmails(s.rows) ==>
      (r.Success? <==>
        exists k :: k in s.rows && s.rows[k].email == req.email
                 && enc.matches(req.senha, s.rows[k].senhaHash))
  {
    match FindByEmail(s, req.email)
    case None => Failure(UserNotFound(req.email))
    case Some(u) =>
      if enc.matches(req.senha, u.senhaHash) then
        Success(TokenPrefix + u.email)
      else
        Failure(PasswordMismatch)
  }
}
