/** `parsers/register.go`: parsers registered under a name. */
module ParserRegister {
  import opened Wrappers

  /** A register of parsers of type `P`; the parsers themselves are
      opaque values (the application registers the Kontr parser). */
  datatype Register<P> = Register(parsers: map<string, P>)

  datatype RegisterError = ParserNotFound(name: string)

  /** `NewRegister`: no parser is registered. */
  function NewRegister<P>(): (r: Register<P>)
    ensures forall name :: Get(r, name) == Failure(ParserNotFound(name))
  {
    Register(map[])
  }

  /** `Register(name, parser)`: replaces any parser of that name. */
  function RegisterParser<P>(reg: Register<P>, name: string, parser: P): (r: Register<P>)
    ensures Get(r, name) == Success(parser)
    ensures forall other :: other != name ==> Get(r, other) == Get(reg, other)
  {
    Register(reg.parsers[name := parser])
  }

  /** `Get(name)`: the registered parser, an error for an unknown name. */
  function Get<P>(reg: Register<P>, name: string): (r: Result<P, RegisterError>)
    ensures r.Success? <==> name in reg.parsers
    ensures r.Success? ==> r.value == reg.parsers[name]
    ensures r.Failure? ==> r.error == ParserNotFound(name)
  {
    if name in reg.parsers then Success(reg.parsers[name]) else Failure(ParserNotFound(name))
  }

  /** Registering a name twice keeps only the second parser. */
  lemma RegisterOverwrites<P>(reg: Register<P>, name: string, first: P, second: P)
    ensures RegisterParser(RegisterParser(reg, name, first), name, second) == RegisterParser(reg, name, second)
  {
  }

  /** Registrations under different names do not interfere. */
  lemma RegisterCommutes<P>(reg: Register<P>, a: string, p: P, b: string, q: P)
    requires a != b
    ensures RegisterParser(RegisterParser(reg, a, p), b, q) == RegisterParser(RegisterParser(reg, b, q), a, p)
  {
  }
}
