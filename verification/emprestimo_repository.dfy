/** The loan queries of `EmprestimoRepository`, as filters over the table in table order. */
module EmprestimoRepository {
  import opened Base
  import opened EmprestimoEntity

  /** The criteria of the repository's derived queries and of its one `@Query`. */
  datatype Consulta =
    | PorUsuario(idUsuario: string)
    | PorStatus(status: StatusEmprestimo)
    | PorUsuarioEStatus(idUsuario: string, status: StatusEmprestimo)
    | Atrasados(data: Day)

  /** Whether a row satisfies the criterion. */
  predicate Atende(e: Emprestimo, q: Consulta)
    reads e
  {
    match q
    case PorUsuario(u) => e.idUsuario == u
    case PorStatus(s) => e.statusEmprestimo == Some(s)
    case PorUsuarioEStatus(u, s) => e.idUsuario == u && e.statusEmprestimo == Some(s)
    case Atrasados(data) => Vencido(e, data) && e.statusEmprestimo == Some(ATIVO)
  }

  /** `e.dataPrevistaDevolucao < :data` in SQL: a comparison with a null column is not true. */
  predicate Vencido(e: Emprestimo, data: Day)
    reads e
  {
    e.dataPrevistaDevolucao.Some? && e.dataPrevistaDevolucao.value < data
  }

  /** The rows of `es` that satisfy `q`, in their table order. */
  function Selecionar(es: seq<Emprestimo>, q: Consulta): (r: seq<Emprestimo>)
    reads es
    ensures |r| <= |es|
    ensures forall e :: e in r ==> e in es && Atende(e, q)
    ensures forall e :: e in es && Atende(e, q) ==> e in r
    // each selected row appears as often as in the table, and a row that fails the criterion not at all
    ensures forall e :: e in es ==> multiset(r)[e] == if Atende(e, q) then multiset(es)[e] else 0
  {
    if es == [] then []
    else
      var cabeca := if Atende(es[0], q) then [es[0]] else [];
      var resto := Selecionar(es[1..], q);
      assert es == [es[0]] + es[1..];
      assert es[0] !in es[1..] ==> multiset(resto)[es[0]] == 0 && multiset(es[1..])[es[0]] == 0;
      cabeca + resto
  }

  /** Selecting from two runs of rows selects from each in turn, so the result keeps the table's
      order: together with the one-row case this determines `Selecionar` completely. */
  lemma {:induction false} SelecionarConcat(a: seq<Emprestimo>, b: seq<Emprestimo>, q: Consulta)
    ensures Selecionar(a + b, q) == Selecionar(a, q) + Selecionar(b, q)
  {
    if a == [] {
      assert a + b == b;
    } else {
      assert (a + b)[1..] == a[1..] + b;
      SelecionarConcat(a[1..], b, q);
    }
  }

  /** `findByUsuario_IdUsuario`. */
  function FindByUsuario(es: seq<Emprestimo>, idUsuario: string): (r: seq<Emprestimo>)
    reads es
    ensures forall e :: e in r ==> e in es && e.idUsuario == idUsuario
    ensures forall e :: e in es && e.idUsuario == idUsuario ==> e in r
  {
    Selecionar(es, PorUsuario(idUsuario))
  }

  /** `findByStatusEmprestimo`. */
  function FindByStatusEmprestimo(es: seq<Emprestimo>, s: StatusEmprestimo): (r: seq<Emprestimo>)
    reads es
    ensures forall e :: e in r ==> e in es && e.statusEmprestimo == Some(s)
    ensures forall e :: e in es && e.statusEmprestimo == Some(s) ==> e in r
  {
    Selecionar(es, PorStatus(s))
  }

  /** `findByUsuario_IdUsuarioAndStatusEmprestimo`. */
  function FindByUsuarioAndStatusEmprestimo(es: seq<Emprestimo>, idUsuario: string, s: StatusEmprestimo): (r: seq<Emprestimo>)
    reads es
    ensures forall e :: e in r ==> e in es && e.idUsuario == idUsuario && e.statusEmprestimo == Some(s)
    ensures forall e :: e in es && e.idUsuario == idUsuario && e.statusEmprestimo == Some(s) ==> e in r
  {
    Selecionar(es, PorUsuarioEStatus(idUsuario, s))
  }

  /** `findEmprestimosAtrasados(data)`: the `ATIVO` loans due strictly before `data`. A loan due on
      `data` itself is not included, and neither is one whose status is already `ATRASADO`. */
  function FindEmprestimosAtrasados(es: seq<Emprestimo>, data: Day): (r: seq<Emprestimo>)
    reads es
    ensures forall e :: e in r ==> e in es && e.statusEmprestimo == Some(ATIVO) && Vencido(e, data)
    ensures forall e :: e in es && e.statusEmprestimo == Some(ATIVO) && Vencido(e, data) ==> e in r
  {
    Selecionar(es, Atrasados(data))
  }

  /** `countByUsuario_IdUsuarioAndStatusEmprestimo`: a separate derived query that counts rows. */
  function CountByUsuarioAndStatusEmprestimo(es: seq<Emprestimo>, idUsuario: string, s: StatusEmprestimo): (n: nat)
    reads es
    ensures n <= |es|
    ensures n == 0 <==> forall e :: e in es ==> !(e.idUsuario == idUsuario && e.statusEmprestimo == Some(s))
  {
    if es == [] then 0
    else
      var resto := CountByUsuarioAndStatusEmprestimo(es[1..], idUsuario, s);
      if es[0].idUsuario == idUsuario && es[0].statusEmprestimo == Some(s) then resto + 1 else resto
  }

  /** The count query and the list query agree: the count is the length of the list. */
  lemma {:induction false} CountIgualTamanho(es: seq<Emprestimo>, idUsuario: string, s: StatusEmprestimo)
    ensures CountByUsuarioAndStatusEmprestimo(es, idUsuario, s) == |FindByUsuarioAndStatusEmprestimo(es, idUsuario, s)|
  {
    if es != [] {
      CountIgualTamanho(es[1..], idUsuario, s);
    }
  }
}
