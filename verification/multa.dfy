/** The fine record (table `multas`). */
module MultaEntity {
  import opened Base
  import opened EmprestimoEntity

  /** The kind of a fine; exactly the four constants of the source enum. */
  datatype TipoMulta = ATRASO | DANO | PERDA | OUTROS

  /** The status of a fine; exactly the three constants of the source enum. */
  datatype StatusMulta = PENDENTE | PAGA | CANCELADA

  class Multa {
    const idMulta: string
    /** Optional: fines for damage or loss need not come from a loan. */
    const emprestimo: Option<Emprestimo>
    /** Required (`nullable = false`). */
    const idUsuario: string
    const tipoMulta: TipoMulta
    /** Required; in centavos (the column is `DECIMAL(10,2)`). */
    const valorMulta: int
    var dataMulta: Option<Day>
    var dataPagamento: Option<Day>
    var statusMulta: Option<StatusMulta>

    /** `new Multa()` with its field initialiser (status `PENDENTE`), followed by the setters
        for the id, the loan, the user, the kind and the amount. */
    constructor (id: string, emprestimo: Option<Emprestimo>, idUsuario: string, tipo: TipoMulta, valor: int)
      ensures idMulta == id && this.emprestimo == emprestimo && this.idUsuario == idUsuario
      ensures tipoMulta == tipo && valorMulta == valor
      ensures statusMulta == Some(PENDENTE) && dataMulta == None && dataPagamento == None
    {
      idMulta := id;
      this.emprestimo := emprestimo;
      this.idUsuario := idUsuario;
      tipoMulta := tipo;
      valorMulta := valor;
      dataMulta := None;
      dataPagamento := None;
      statusMulta := Some(PENDENTE);
    }

    /** Every column that the persistence hook fills is set. */
    predicate Persistido()
      reads this
    {
      dataMulta.Some? && statusMulta.Some?
    }

    /** The `@PrePersist` hook: fills each null column with its default and keeps every supplied value. */
    method OnCreate(agora: Day)
      modifies this
      ensures Persistido()
      ensures dataMulta == if old(dataMulta).None? then Some(agora) else old(dataMulta)
      ensures statusMulta == if old(statusMulta).None? then Some(PENDENTE) else old(statusMulta)
      ensures dataPagamento == old(dataPagamento)
    {
      if dataMulta.None? {
        dataMulta := Some(agora);
      }
      if statusMulta.None? {
        statusMulta := Some(PENDENTE);
      }
    }
  }
}
