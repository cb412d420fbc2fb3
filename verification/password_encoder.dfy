/** The password encoder the service is given (bcrypt in the application),
    seen only through its two operations. */
module PasswordEncoding {

  /** `encode` turns a plain password into a stored hash; `matches(p, h)` says
      whether plain password `p` fits stored hash `h`. */
  datatype PasswordEncoder = PasswordEncoder(
    encode: string -> string,
    matches: (string, string) -> bool)

  /** The encoder's own promise: a password matches its own encoding. */
  ghost predicate MatchesOwnEncoding(enc: PasswordEncoder)
  {
    forall p :: enc.matches(p, enc.encode(p))
  }
}
