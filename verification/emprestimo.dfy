/** The loan record (table `emprestimos`). */
module EmprestimoEntity {
  import opened Base
  import opened ExemplarEntity

  /** The status of a loan; exactly the four constants of the source enum. */
  datatype StatusEmprestimo = ATIVO | DEVOLVIDO | ATRASADO | CANCELADO

  /** `StatusEmprestimo.name()`: the constant's identifier, as stored in the `STRING` column. */
  function Nome(s: StatusEmprestimo): (n: string)
  {
    match s
    case ATIVO => "ATIVO"
    case DEVOLVIDO => "DEVOLVIDO"
    case ATRASADO => "ATRASADO"
    case CANCELADO => "CANCELADO"
  }

  /** `StatusEmprestimo.valueOf(n)`, with `None` where Java throws `IllegalArgumentException`. */
  function ValueOf(n: string): (r: Option<StatusEmprestimo>)
    ensures r.Some? ==> Nome(r.value) == n
  {
    if n == "ATIVO" then Some(ATIVO)
    else if n == "DEVOLVIDO" then Some(DEVOLVIDO)
    else if n == "ATRASADO" then Some(ATRASADO)
    else if n == "CANCELADO" then Some(CANCELADO)
    else None
  }

  /** Reading a stored status back gives the status that was written, so the stored name loses nothing. */
  lemma NomeValueOf()
    ensures forall s :: ValueOf(Nome(s)) == Some(s)
  {
  }

  class Emprestimo {
    const idEmprestimo: string
    const exemplar: Exemplar
    const idUsuario: string
    var dataEmprestimo: Option<Day>
    var dataPrevistaDevolucao: Option<Day>
    var dataDevolucao: Option<Day>
    var renovacoes: Option<int>
    var statusEmprestimo: Option<StatusEmprestimo>

    /** `new Emprestimo()` with its field initialisers (`renovacoes = 0`, status `ATIVO`),
        followed by the setters for the id, the copy and the user. */
    constructor (id: string, exemplar: Exemplar, idUsuario: string)
      ensures idEmprestimo == id && this.exemplar == exemplar && this.idUsuario == idUsuario
      ensures renovacoes == Some(0) && statusEmprestimo == Some(ATIVO)
      ensures dataEmprestimo == None && dataPrevistaDevolucao == None && dataDevolucao == None
    {
      idEmprestimo := id;
      this.exemplar := exemplar;
      this.idUsuario := idUsuario;
      dataEmprestimo := None;
      dataPrevistaDevolucao := None;
      dataDevolucao := None;
      renovacoes := Some(0);
      statusEmprestimo := Some(ATIVO);
    }

    /** Every column that the persistence hook fills is set. */
    predicate Persistido()
      reads this
    {
      dataEmprestimo.Some? && renovacoes.Some? && statusEmprestimo.Some?
    }

    /** The `@PrePersist` hook: fills each null column with its default and keeps every supplied value. */
    method OnCreate(agora: Day)
      modifies this
      ensures Persistido()
      ensures dataEmprestimo == if old(dataEmprestimo).None? then Some(agora) else old(dataEmprestimo)
      ensures renovacoes == if old(renovacoes).None? then Some(0) else old(renovacoes)
      ensures statusEmprestimo == if old(statusEmprestimo).None? then Some(ATIVO) else old(statusEmprestimo)
      ensures dataPrevistaDevolucao == old(dataPrevistaDevolucao) && dataDevolucao == old(dataDevolucao)
    {
      if dataEmprestimo.None? {
        dataEmprestimo := Some(agora);
      }
      if renovacoes.None? {
        renovacoes := Some(0);
      }
      if statusEmprestimo.None? {
        statusEmprestimo := Some(ATIVO);
      }
    }
  }
}
