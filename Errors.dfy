/** The exceptions the Jackut code throws, as one error datatype, with the
    two tag-to-message tables and the Option/Result/Outcome wrappers that
    stand for "null", "returns or throws" and "completes or throws". */
module Errors {

  datatype Option<+T> = None | Some(value: T)

  /** Each constructor is one exception class; the message is what
      getMessage() returns where the source chooses it. */
  datatype Error =
    | NotFoundUser(message: string)          // NotFoundUserException
    | InvalidAuth(message: string)           // InvalidAuthException
    | UserAlreadyExists                      // UserAlreadyExistsException
    | NotFilledAttribute                     // NotFilledAttributeException
    | InvalidFriendOp(message: string)       // InvalidFriendOpException
    | IdolAlreadyAdded
    | FanOfItself
    | EnemyException(message: string)
    | CrushAlreadyAdded
    | CrushOfItself(message: string)
    | EnemyAlreadyAdded(message: string)
    | EnemyOfItself(message: string)
    | InvalidCommunity(message: string)      // InvalidCommunityException
    | NotFoundMessage(message: string)       // NotFoundMessageException
    | SelfMessage                            // SelfMessageException
    | Runtime(message: string)               // a plain RuntimeException
    | NullPointer                            // dereferencing a null user

  /** A value, or the exception thrown instead. */
  datatype Result<+T> = Ok(value: T) | Err(error: Error)

  /** Completion of a void method, or the exception thrown instead. */
  datatype Outcome = Done | Failed(error: Error)

  /** NotFoundUserException's default message. */
  const UserNotRegistered := "Usuário não cadastrado."

  /** The message of a refusal because the user called `name` lists the
      actor as enemy (the same text in every service that checks it). */
  function EnemyMessage(name: string): string {
    "Função inválida: " + name + " é seu inimigo."
  }

  /** The message of `new InvalidAuthException(type)`. */
  function InvalidAuthMessage(tag: string): (m: string)
    ensures tag == "login" ==> m == "Login inválido."
    ensures tag == "senha" ==> m == "Senha inválida."
    ensures tag == "loginSenha" ==> m == "Login ou senha inválidos."
    ensures tag !in {"login", "senha", "loginSenha"} ==> m == tag
  {
    match tag
    case "login" => "Login inválido."
    case "senha" => "Senha inválida."
    case "loginSenha" => "Login ou senha inválidos."
    case _ => tag
  }

  /** The message of `new InvalidAuthException(cause)`, whatever the cause. */
  const InvalidAuthCauseMessage := "Login ou senha inválidos."

  /** The message table is idempotent: a message is returned unchanged when
      used as a tag, so messages never collide with tags; and the cause
      constructor agrees with the "loginSenha" tag. */
  lemma InvalidAuthMessageFacts(tag: string)
    ensures InvalidAuthMessage(InvalidAuthMessage(tag)) == InvalidAuthMessage(tag)
    ensures InvalidAuthCauseMessage == InvalidAuthMessage("loginSenha")
  {
  }

  /** The message of `new InvalidCommunityException(type)`. */
  function InvalidCommunityMessage(tag: string): (m: string)
    ensures tag == "notFound" ==> m == "Comunidade não existe."
    ensures tag == "alreadyExists" ==> m == "Comunidade com esse nome já existe."
    ensures tag == "notMember" ==> m == "Usuário não é membro da comunidade."
    ensures tag == "alreadyMember" ==> m == "Usuario já faz parte dessa comunidade."
    ensures tag == "notManager" ==> m == "Apenas o gerente pode editar a comunidade."
    ensures tag == "managerCantLeave" ==> m == "O gerente não pode sair da comunidade."
    ensures !IsCommunityTag(tag) ==> m == tag
  {
    match tag
    case "notFound" => "Comunidade não existe."
    case "alreadyExists" => "Comunidade com esse nome já existe."
    case "notMember" => "Usuário não é membro da comunidade."
    case "alreadyMember" => "Usuario já faz parte dessa comunidade."
    case "notManager" => "Apenas o gerente pode editar a comunidade."
    case "managerCantLeave" => "O gerente não pode sair da comunidade."
    case _ => tag
  }

  predicate IsCommunityTag(tag: string) {
    tag in {"notFound", "alreadyExists", "notMember", "alreadyMember", "notManager", "managerCantLeave"}
  }
}
