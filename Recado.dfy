/** A direct message ("recado"): who sent it, its text and its recipient. The
    Java class has only getters, so a value models it exactly. */
module Recados {

  datatype Recado = Recado(remetente: string, mensagem: string, destinatario: string)

  /** The messages of q not sent by `login`, in their original order: the
      queue the cascade delete rebuilds for every remaining user. */
  function NotFrom(q: seq<Recado>, login: string): (r: seq<Recado>)
    ensures forall m :: m in r <==> m in q && m.remetente != login
    ensures |r| <= |q|
    ensures (forall m :: m in q ==> m.remetente != login) ==> r == q
  {
    if q == [] then []
    else if q[0].remetente == login then NotFrom(q[1..], login)
    else [q[0]] + NotFrom(q[1..], login)
  }

  /** Filtering keeps relative order: filtering a concatenation is the
      concatenation of the filtered parts, so a message appended after the
      filter stays at the tail. */
  lemma {:induction false} NotFromAppend(p: seq<Recado>, q: seq<Recado>, login: string)
    ensures NotFrom(p + q, login) == NotFrom(p, login) + NotFrom(q, login)
  {
    if p == [] {
      assert p + q == q;
    } else {
      assert (p + q)[0] == p[0] && (p + q)[1..] == p[1..] + q;
      NotFromAppend(p[1..], q, login);
    }
  }
}
