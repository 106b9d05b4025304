/** The legacy direct message (Message.java in the root package): sender,
    text and recipient. The class has only getters, so a value models it
    exactly; its destructors are the getters. */
module LegacyMessages {

  datatype Message = Message(remetente: string, mensagem: string, destinatario: string)
}
