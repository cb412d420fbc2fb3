/** The entity `Usuario`, its type enumeration `TipoUsuario`, and the request
    records the service receives. */
module Model {
  import opened Wrappers

  /** The two account types. */
  datatype TipoUsuario = NORMAL | ORGANIZADOR

  /** The constant name of an account type, as `Enum.name()` gives it. */
  function TipoName(t: TipoUsuario): string
  {
    match t
    case NORMAL => "NORMAL"
    case ORGANIZADOR => "ORGANIZADOR"
  }

  /** `TipoUsuario.valueOf`: the constant whose name is exactly `name`, or
      nothing (Java throws `IllegalArgumentException`) when there is none. */
  function TipoValueOf(name: string): (r: Option<TipoUsuario>)
    ensures forall t :: r == Some(t) <==> name == TipoName(t)
    ensures r.None? <==> forall t :: name != TipoName(t)
  {
    if name == "NORMAL" then Some(NORMAL)
    else if name == "ORGANIZADOR" then Some(ORGANIZADOR)
    else None
  }

  /** A point in time (`LocalDateTime`); the model only copies it. */
  type Timestamp = int

  /** A stored account. `id` is empty until the store assigns one. */
  datatype Usuario = Usuario(
    id: Option<int>,
    nome: string,
    email: string,
    senhaHash: string,
    tipo: TipoUsuario,
    criadoEm: Timestamp)

  /** Registration input: name, email, plain password and account-type text. */
  datatype UsuarioDto = UsuarioDto(nome: string, email: string, senha: string, tipo: string)

  /** Login input: email and plain password. */
  datatype LoginRequestDto = LoginRequestDto(email: string, senha: string)
}
