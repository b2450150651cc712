/** `core/students_register.go`: the map from a student's university code
    (UČO) to the anonymous id that stands for the student in the output. */
module StudentsRegister {
  import opened Wrappers
  import opened Stats

  datatype Register = Register(users: map<string, Uuid>)

  datatype RegisterError = UserNotFound(uco: string)

  /** `NewStudentsRegister`: no student is registered. */
  function NewStudentsRegister(): (r: Register)
    ensures forall uco :: Get(r, uco) == Failure(UserNotFound(uco))
  {
    Register(map[])
  }

  /** `Register(uco, id)`: binds `uco` to `id`, replacing any earlier id. */
  function RegisterUser(reg: Register, uco: string, id: Uuid): (r: Register)
    ensures Get(r, uco) == Success(id)
    ensures forall other :: other != uco ==> Get(r, other) == Get(reg, other)
    ensures r.users.Keys == reg.users.Keys + {uco}
  {
    Register(reg.users[uco := id])
  }

  /** `Get(uco)`: the id of a registered student, an error otherwise. */
  function Get(reg: Register, uco: string): (r: Result<Uuid, RegisterError>)
    ensures r.Success? <==> uco in reg.users
    ensures r.Success? ==> r.value == reg.users[uco]
    ensures r.Failure? ==> r.error == UserNotFound(uco)
  {
    if uco in reg.users then Success(reg.users[uco]) else Failure(UserNotFound(uco))
  }

  /** The register after `GetOrRegister` and the id it returned. */
  datatype Registered = Registered(register: Register, id: Uuid)

  /** `GetOrRegister(uco)`: the stored id of a known student; otherwise the
      id `newId` (Go's `uuid.New()`) is stored for the student and returned. */
  function GetOrRegister(reg: Register, uco: string, newId: Uuid): (r: Registered)
    ensures Get(r.register, uco) == Success(r.id)
    ensures uco in reg.users ==> r.register == reg && r.id == reg.users[uco]
    ensures uco !in reg.users ==> r.id == newId && r.register == RegisterUser(reg, uco, newId)
    ensures forall other :: other != uco ==> Get(r.register, other) == Get(reg, other)
  {
    match Get(reg, uco)
    case Success(id) => Registered(reg, id)
    case Failure(_) => Registered(RegisterUser(reg, uco, newId), newId)
  }

  /** Asking twice for the same student gives the same id and leaves the
      register as the first call left it, whatever id the second call would
      have generated. */
  lemma GetOrRegisterIdempotent(reg: Register, uco: string, newId: Uuid, newId': Uuid)
    ensures var first := GetOrRegister(reg, uco, newId);
            GetOrRegister(first.register, uco, newId') == first
  {
  }

  /** No two students share an id. */
  ghost predicate Injective(reg: Register) {
    forall a, b :: a in reg.users && b in reg.users && a != b ==> reg.users[a] != reg.users[b]
  }

  /** Students keep distinct ids as long as every generated id is new. */
  lemma GetOrRegisterInjective(reg: Register, uco: string, newId: Uuid)
    requires Injective(reg)
    requires newId !in reg.users.Values
    ensures Injective(GetOrRegister(reg, uco, newId).register)
  {
    var r := GetOrRegister(reg, uco, newId).register;
    forall a, b | a in r.users && b in r.users && a != b
      ensures r.users[a] != r.users[b]
    {
      if uco !in reg.users && (a == uco || b == uco) {
        var other := if a == uco then b else a;
        assert reg.users[other] in reg.users.Values;
      }
    }
  }

  /** No operation forgets a student: the registered codes only grow, and
      an id once handed out by `GetOrRegister` stays. */
  lemma RegisteredGrow(reg: Register, uco: string, newId: Uuid, other: string, id: Uuid)
    requires other in reg.users
    ensures other in GetOrRegister(reg, uco, newId).register.users
    ensures GetOrRegister(reg, uco, newId).register.users[other] == reg.users[other]
    ensures other in RegisterUser(reg, uco, id).users
  {
  }
}
