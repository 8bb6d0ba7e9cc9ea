/** The physical copy of a work (table `exemplares`). */
module ExemplarEntity {
  import opened Base

  /** The condition of a copy; exactly the five constants of the source enum. */
  datatype EstadoConservacao = EXCELENTE | BOM | REGULAR | RUIM | PESSIMO

  class Exemplar {
    const idExemplar: string
    var estadoConservacao: Option<EstadoConservacao>
    var disponivel: Option<bool>
    var dataCadastro: Option<Day>

    /** `new Exemplar()` with its field initialisers, followed by `setIdExemplar(id)`. */
    constructor (id: string)
      ensures idExemplar == id
      ensures estadoConservacao == Some(BOM) && disponivel == Some(true)
      ensures dataCadastro == None
    {
      idExemplar := id;
      estadoConservacao := Some(BOM);
      disponivel := Some(true);
      dataCadastro := None;
    }

    /** Every column that the persistence hook fills is set. */
    predicate Persistido()
      reads this
    {
      dataCadastro.Some? && disponivel.Some? && estadoConservacao.Some?
    }

    /** The `@PrePersist` hook: fills each null column with its default and keeps every supplied value. */
    method OnCreate(agora: Day)
      modifies this
      ensures Persistido()
      ensures dataCadastro == if old(dataCadastro).None? then Some(agora) else old(dataCadastro)
      ensures disponivel == if old(disponivel).None? then Some(true) else old(disponivel)
      ensures estadoConservacao == if old(estadoConservacao).None? then Some(BOM) else old(estadoConservacao)
    {
      if dataCadastro.None? {
        dataCadastro := Some(agora);
      }
      if disponivel.None? {
        disponivel := Some(true);
      }
      if estadoConservacao.None? {
        estadoConservacao := Some(BOM);
      }
    }
  }
}
