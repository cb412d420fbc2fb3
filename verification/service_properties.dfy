/** Properties of the account service that relate its operations to each
    other and to the store invariant. */
module ServiceProperties {
  import opened Wrappers
  import opened Model
  import opened AsciiCase
  import opened PasswordEncoding
  import opened Repository
  import opened UsuarioService

  /** The texts parsed as ORGANIZADOR are exactly the spellings of
      "organizador" with each letter in either case. */
  lemma ParseTipoOrganizadorAnyCase(text: string)
    ensures ParseTipo(text) == Some(ORGANIZADOR) <==> CaseVariantOf(text, "ORGANIZADOR")
  {
  }

  /** The texts parsed as NORMAL are exactly the spellings of "normal" with
      each letter in either case. */
  lemma ParseTipoNormalAnyCase(text: string)
    ensures ParseTipo(text) == Some(NORMAL) <==> CaseVariantOf(text, "NORMAL")
  {
  }

  /** Type text naming no account type is rejected: "manager", the English
      "organizer", and the empty text. */
  lemma ParseTipoRejectsOthers()
    ensures ParseTipo("manager").None?
    ensures ParseTipo("organizer").None?
    ensures ParseTipo("").None?
  {
  }

  /** The duplicate-email check comes first: a taken email fails with the
      duplicate error even when the type text is invalid, and nothing is saved. */
  lemma DuplicateBeforeInvalidTipo(s: Store, dto: UsuarioDto, enc: PasswordEncoder, now: Timestamp)
    requires HasEmail(s.rows, dto.email)
    requires ParseTipo(dto.tipo).None?
    ensures RegistrarUsuario(s, dto, enc, now) == Reply(Failure(DuplicateEmail(dto.email)), s)
  {
  }

  /** Registration keeps the store invariant: ids stay consistent and no two
      records share an email. */
  lemma RegistrarPreservesValid(s: Store, dto: UsuarioDto, enc: PasswordEncoder, now: Timestamp)
    requires Valid(s)
    ensures Valid(RegistrarUsuario(s, dto, enc, now).store)
  {
  }

  /** Registering a second account with an email already registered fails
      with the duplicate error and leaves the store as the first left it. */
  lemma SecondRegistrationFails(s: Store, dto: UsuarioDto, dto2: UsuarioDto, enc: PasswordEncoder,
                                now: Timestamp, now2: Timestamp)
    requires RegistrarUsuario(s, dto, enc, now).result.Success?
    requires dto2.email == dto.email
    ensures var s1 := RegistrarUsuario(s, dto, enc, now).store;
      RegistrarUsuario(s1, dto2, enc, now2) == Reply(Failure(DuplicateEmail(dto.email)), s1)
  {
  }

  /** After a successful registration, lookup by the new id finds the saved
      record, and lookup by any other id answers as before. */
  lemma RegisterThenFind(s: Store, dto: UsuarioDto, enc: PasswordEncoder, now: Timestamp, id: int)
    requires RegistrarUsuario(s, dto, enc, now).result.Success?
    ensures var r := RegistrarUsuario(s, dto, enc, now);
      && r.result.value.id == Some(s.nextId)
      && BuscarUsuarioPorId(r.store, s.nextId) == Some(r.result.value)
      && (id != s.nextId ==> BuscarUsuarioPorId(r.store, id) == BuscarUsuarioPorId(s, id))
  {
  }

  /** With an encoder whose hashes match their own passwords, registering and
      then logging in with the same email and password yields the token. */
  lemma RegisterThenLogin(s: Store, dto: UsuarioDto, enc: PasswordEncoder, now: Timestamp)
    requires MatchesOwnEncoding(enc)
    requires RegistrarUsuario(s, dto, enc, now).result.Success?
    ensures var s1 := RegistrarUsuario(s, dto, enc, now).store;
      LoginUsuario(s1, LoginRequestDto(dto.email, dto.senha), enc) == Success(TokenPrefix + dto.email)
  {
  }

  /** Login with a registered email but a password that does not fit its
      hash fails with the password error. */
  lemma LoginWrongPassword(s: Store, req: LoginRequestDto, enc: PasswordEncoder, k: int)
    requires UniqueEmails(s.rows)
    requires k in s.rows && s.rows[k].email == req.email
    requires !enc.matches(req.senha, s.rows[k].senhaHash)
    ensures LoginUsuario(s, req, enc) == Failure(PasswordMismatch)
  {
  }
}
