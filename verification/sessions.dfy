/** Sequences of service calls against one store, run one after another:
    the sequential setting in which the store invariant is kept. */
module Sessions {
  import opened Wrappers
  import opened Model
  import opened PasswordEncoding
  import opened Repository
  import opened UsuarioService
  import ServiceProperties

  /** One call to the service. A registration carries the clock reading and
      the `encode` its call uses: bcrypt salts each hash afresh, so two
      registrations of one password need not store the same hash. */
  datatype Request =
    | Register(dto: UsuarioDto, now: Timestamp, encode: string -> string)
    | FindUser(id: int)
    | Login(req: LoginRequestDto)

  /** What one call answers. */
  datatype Response =
    | Registered(result: Result<Usuario, Error>)
    | Found(user: Option<Usuario>)
    | LoggedIn(token: Result<string, Error>)

  /** The encoder one registration uses: the session's `matches` with the
      registration's own `encode`. */
  function EncoderFor(enc: PasswordEncoder, encode: string -> string): PasswordEncoder
  {
    enc.(encode := encode)
  }

  /** Serves one request against the session's encoder `enc`, whose `matches`
      every call shares; lookups and logins never change the store. */
  function Handle(s: Store, enc: PasswordEncoder, q: Request): (r: (Response, Store))
    ensures !q.Register? ==> r.1 == s
    ensures q.Register? ==>
      var reply := RegistrarUsuario(s, q.dto, EncoderFor(enc, q.encode), q.now);
      r == (Registered(reply.result), reply.store)
    ensures q.FindUser? ==> r.0 == Found(BuscarUsuarioPorId(s, q.id))
    ensures q.Login? ==> r.0 == LoggedIn(LoginUsuario(s, q.req, enc))
  {
    match q
    case Register(dto, now, encode) =>
      var reply := RegistrarUsuario(s, dto, EncoderFor(enc, encode), now);
      (Registered(reply.result), reply.store)
    case FindUser(id) => (Found(BuscarUsuarioPorId(s, id)), s)
    case Login(req) => (LoggedIn(LoginUsuario(s, req, enc)), s)
  }

  /** The store after serving `qs` in order. */
  function Run(s: Store, enc: PasswordEncoder, qs: seq<Request>): Store
    decreases |qs|
  {
    if qs == [] then s else Run(Handle(s, enc, qs[0]).1, enc, qs[1..])
  }

  /** Every record in `s` is still in `s'`, unchanged. */
  ghost predicate KeepsRecords(s: Store, s': Store)
  {
    forall k :: k in s.rows ==> k in s'.rows && s'.rows[k] == s.rows[k]
  }

  /** One request keeps the invariant and every existing record. */
  lemma HandlePreservesValid(s: Store, enc: PasswordEncoder, q: Request)
    requires Valid(s)
    ensures Valid(Handle(s, enc, q).1)
    ensures KeepsRecords(s, Handle(s, enc, q).1)
  {
    if q.Register? {
      ServiceProperties.RegistrarPreservesValid(s, q.dto, EncoderFor(enc, q.encode), q.now);
    }
  }

  /** Any sequence of requests keeps the invariant (no two records share an
      email) and never changes or removes an existing record. */
  lemma {:induction false} RunPreservesValid(s: Store, enc: PasswordEncoder, qs: seq<Request>)
    requires Valid(s)
    ensures Valid(Run(s, enc, qs))
    ensures KeepsRecords(s, Run(s, enc, qs))
    decreases |qs|
  {
    if qs != [] {
      var s1 := Handle(s, enc, qs[0]).1;
      HandlePreservesValid(s, enc, qs[0]);
      RunPreservesValid(s1, enc, qs[1..]);
    }
  }

  /** A sequence made only of lookups and logins leaves the store as it was. */
  lemma {:induction false} ReadOnlyRunUnchanged(s: Store, enc: PasswordEncoder, qs: seq<Request>)
    requires forall i :: 0 <= i < |qs| ==> !qs[i].Register?
    ensures Run(s, enc, qs) == s
    decreases |qs|
  {
    if qs != [] {
      assert !qs[0].Register?;
      ReadOnlyRunUnchanged(s, enc, qs[1..]);
    }
  }

  /** Once an account is registered, whatever requests follow, logging in
      with its email and password still yields the token. */
  lemma LoginSurvivesLaterRequests(s: Store, dto: UsuarioDto, enc: PasswordEncoder, now: Timestamp,
                                   qs: seq<Request>)
    requires Valid(s)
    requires MatchesOwnEncoding(enc)
    requires RegistrarUsuario(s, dto, enc, now).result.Success?
    ensures var s1 := RegistrarUsuario(s, dto, enc, now).store;
      LoginUsuario(Run(s1, enc, qs), LoginRequestDto(dto.email, dto.senha), enc)
        == Success(TokenPrefix + dto.email)
  {
    var s1 := RegistrarUsuario(s, dto, enc, now).store;
    ServiceProperties.RegistrarPreservesValid(s, dto, enc, now);
    RunPreservesValid(s1, enc, qs);
    var s2 := Run(s1, enc, qs);
    assert s2.rows[s.nextId] == s1.rows[s.nextId];
    assert enc.matches(dto.senha, s2.rows[s.nextId].senhaHash);
  }
}
