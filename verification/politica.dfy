/** The policy constants of the two circulation paths and the late-fine rule of the service.
    The service and the controller disagree; each keeps its own constants here. */
module Politica {
  import opened Base

  /** The service refuses a renewal once a loan has been renewed this many times. */
  const MaxRenovacoesServico: int := 3

  /** The controller fixes the loan period ... */
  const PrazoControlador: int := 14
  /** ... and the length of a renewal ... */
  const RenovacaoControlador: int := 7
  /** ... and refuses a renewal once a loan has been renewed this many times. */
  const MaxRenovacoesControlador: int := 2

  /** The service charges R$ 2,00 per day late; amounts are in centavos. */
  const ValorDiario: int := 200

  /** `ChronoUnit.DAYS.between(prevista, devolucao)`: negative when returned early. */
  function DiasAtraso(prevista: Day, devolucao: Day): (d: int)
  {
    devolucao - prevista
  }

  /** The amount of the late fine for a loan due on `prevista` and returned on `devolucao`,
      or `None` when the service creates no fine. */
  function MultaPorAtraso(prevista: Day, devolucao: Day): (r: Option<int>)
    ensures r.Some? <==> devolucao > prevista
    ensures r.Some? ==> r.value >= ValorDiario && r.value % ValorDiario == 0
    ensures r.Some? ==> r.value / ValorDiario == devolucao - prevista
  {
    var dias := DiasAtraso(prevista, devolucao);
    if dias > 0 then Some(dias * ValorDiario) else None
  }

  /** A later return never costs less. */
  lemma {:induction false} MultaMonotona(prevista: Day, d1: Day, d2: Day)
    requires prevista < d1 <= d2
    ensures MultaPorAtraso(prevista, d1).value <= MultaPorAtraso(prevista, d2).value
  {
  }
}
