/** `EmprestimoDTO`: the JSON view of a loan that the controller returns, with the derived
    "is late / days late" fields computed against today's date. */
module EmprestimoDto {
  import opened Base
  import opened EmprestimoEntity
  import opened Persistencia
  import EmprestimoRepository
  import Politica

  /** The largest Java `int`. */
  const MaxInt: int := 0x7fff_ffff

  /** Java's `(int)` narrowing of a `long`: the low 32 bits, read in two's complement. */
  function ParaInt(x: int): (r: int)
    ensures -MaxInt - 1 <= r <= MaxInt
    ensures (x - r) % 0x1_0000_0000 == 0
    ensures -MaxInt - 1 <= x <= MaxInt ==> r == x
  {
    var baixo := x % 0x1_0000_0000;
    if baixo > MaxInt then baixo - 0x1_0000_0000 else baixo
  }

  /** The fields of the view that `fromEntity` fills. The user's name, the work's id and title,
      the copy's barcode and the loan's notes are not part of this model. */
  datatype EmprestimoDTO = EmprestimoDTO(
    idEmprestimo: string,
    idExemplar: string,
    idUsuario: string,
    dataEmprestimo: Option<Day>,
    dataPrevistaDevolucao: Option<Day>,
    dataDevolucao: Option<Day>,
    renovacoes: Option<int>,
    statusEmprestimo: Option<string>,
    atrasado: bool,
    diasAtraso: int)

  /** The derived pair (`atrasado`, `diasAtraso`). */
  datatype Atraso = Atraso(atrasado: bool, diasAtraso: int)

  /** Whether a loan due on `prevista` and returned on `devolucao` is late on day `hoje`, and by
      how many days. Only a loan that is still out and has a due date can be late. */
  function CalcularAtraso(prevista: Option<Day>, devolucao: Option<Day>, hoje: Day): (a: Atraso)
    ensures a.atrasado <==> devolucao.None? && prevista.Some? && hoje > prevista.value
    // a returned loan, one without a due date and one not yet due all show zero days late
    ensures !a.atrasado ==> a.diasAtraso == 0
    // the days late are counted from the due date, as long as the count fits in an `int`
    ensures a.atrasado && hoje - prevista.value <= MaxInt ==> a.diasAtraso == hoje - prevista.value >= 1
    ensures (a.atrasado ==> hoje - prevista.value <= MaxInt) ==> a.diasAtraso >= 0 && (a.atrasado <==> a.diasAtraso > 0)
  {
    if devolucao.None? && prevista.Some? then
      var atrasado := hoje > prevista.value;
      if atrasado then Atraso(true, ParaInt(hoje - prevista.value)) else Atraso(false, 0)
    else
      Atraso(false, 0)
  }

  /** The `(int)` cast does not keep the sign of a day count of 2^31 or more: a loan due 2^31 days
      before today shows as late by a negative number of days. */
  lemma AtrasoTruncado()
    ensures CalcularAtraso(Some(0), None, MaxInt + 1) == Atraso(true, -MaxInt - 1)
  {
    assert ParaInt(MaxInt + 1) == -MaxInt - 1;
  }

  /** `fromEntity`: the view of loan `e` on day `hoje`. */
  function FromEntity(e: Emprestimo, hoje: Day): (d: EmprestimoDTO)
    reads e
    ensures d.idEmprestimo == e.idEmprestimo && d.idExemplar == e.exemplar.idExemplar && d.idUsuario == e.idUsuario
    ensures d.dataEmprestimo == e.dataEmprestimo && d.dataPrevistaDevolucao == e.dataPrevistaDevolucao
    ensures d.dataDevolucao == e.dataDevolucao && d.renovacoes == e.renovacoes
    // the status travels as the constant's name, or as null
    ensures d.statusEmprestimo.None? <==> e.statusEmprestimo.None?
    ensures d.statusEmprestimo.Some? ==> ValueOf(d.statusEmprestimo.value) == e.statusEmprestimo
    ensures Atraso(d.atrasado, d.diasAtraso) == CalcularAtraso(e.dataPrevistaDevolucao, e.dataDevolucao, hoje)
  {
    NomeValueOf();
    EmprestimoDTO(
      e.idEmprestimo,
      e.exemplar.idExemplar,
      e.idUsuario,
      e.dataEmprestimo,
      e.dataPrevistaDevolucao,
      e.dataDevolucao,
      e.renovacoes,
      if e.statusEmprestimo.Some? then Some(Nome(e.statusEmprestimo.value)) else None,
      CalcularAtraso(e.dataPrevistaDevolucao, e.dataDevolucao, hoje).atrasado,
      CalcularAtraso(e.dataPrevistaDevolucao, e.dataDevolucao, hoje).diasAtraso)
  }

  /** The view and the late fine agree: an open loan shows as late on day `hoje` exactly when
      returning it that day would be fined, and the fine is the days late times the daily rate. */
  lemma AtrasoEMulta(e: Emprestimo, hoje: Day)
    requires e.dataPrevistaDevolucao.Some? && e.dataDevolucao.None?
    requires hoje - e.dataPrevistaDevolucao.value <= MaxInt
    ensures FromEntity(e, hoje).atrasado <==> Politica.MultaPorAtraso(e.dataPrevistaDevolucao.value, hoje).Some?
    ensures FromEntity(e, hoje).atrasado ==>
      Politica.MultaPorAtraso(e.dataPrevistaDevolucao.value, hoje).value == FromEntity(e, hoje).diasAtraso * Politica.ValorDiario
  {
  }

  /** The overdue list and the view agree: in a consistent database every loan that
      `findEmprestimosAtrasados(hoje)` returns shows as late, and an `ATIVO` loan that shows as
      late is in the list. A loan whose status is `ATRASADO` can show as late yet is never listed. */
  lemma AtrasadosMostramAtraso(db: Banco, hoje: Day)
    requires db.Consistent()
    ensures forall e :: e in EmprestimoRepository.FindEmprestimosAtrasados(db.emprestimos, hoje) ==> FromEntity(e, hoje).atrasado
    ensures forall e :: e in db.emprestimos && e.statusEmprestimo == Some(ATIVO) && FromEntity(e, hoje).atrasado
              ==> e in EmprestimoRepository.FindEmprestimosAtrasados(db.emprestimos, hoje)
  {
    forall e | e in EmprestimoRepository.FindEmprestimosAtrasados(db.emprestimos, hoje)
      ensures FromEntity(e, hoje).atrasado
    {
      assert e in db.emprestimos && Aberto(e);
    }
  }
}
