/** `MultaController`: paying and cancelling a fine, and the pending-fine count and totals. */
module MultaController {
  import opened Base
  import opened MultaEntity
  import opened Persistencia
  import MultaRepository

  /** `contarPendentes`: the size of the list of `PENDENTE` fines, which is the number of `PENDENTE`
      rows counted one by one. */
  function ContarPendentes(ms: seq<Multa>): (n: nat)
    reads ms
    ensures n == MultaRepository.Contar(ms, MultaRepository.PorStatus(PENDENTE))
    ensures n <= |ms|
    ensures n == 0 <==> forall m :: m in ms ==> m.statusMulta != Some(PENDENTE)
  {
    MultaRepository.CountIgualTamanho(ms, MultaRepository.PorStatus(PENDENTE));
    |MultaRepository.FindByStatusMulta(ms, PENDENTE)|
  }

  /** `calcularTotalGeralPendentes`: the amounts of the `PENDENTE` fines, added up from zero. */
  function CalcularTotalGeralPendentes(ms: seq<Multa>): (t: int)
    reads ms
    ensures ContarPendentes(ms) == 0 ==> t == 0
    ensures t == MultaRepository.TotalSelecionado(ms, MultaRepository.PorStatus(PENDENTE))
  {
    MultaRepository.TotalIgualSoma(ms, MultaRepository.PorStatus(PENDENTE));
    MultaRepository.Soma(MultaRepository.FindByStatusMulta(ms, PENDENTE))
  }

  /** `calcularTotalPendentes(idUsuario)`: the repository's sum, with its null read as zero. Reading
      null as zero makes it the plain sum of the user's pending amounts. */
  function CalcularTotalPendentes(ms: seq<Multa>, idUsuario: string): (t: int)
    reads ms
    ensures t == MultaRepository.Soma(MultaRepository.FindByUsuarioAndStatusMulta(ms, idUsuario, PENDENTE))
    ensures MultaRepository.CountByUsuarioAndStatusMulta(ms, idUsuario, PENDENTE) == 0 ==> t == 0
    ensures t == MultaRepository.TotalSelecionado(ms, MultaRepository.PorUsuarioEStatus(idUsuario, PENDENTE))
  {
    MultaRepository.TotalIgualSoma(ms, MultaRepository.PorUsuarioEStatus(idUsuario, PENDENTE));
    MultaRepository.CountIgualTamanho(ms, MultaRepository.PorUsuarioEStatus(idUsuario, PENDENTE));
    match MultaRepository.CalcularTotalMultasPendentes(ms, idUsuario)
    case None => 0
    case Some(v) => v
  }

  /** `pagarMulta(id)`: marks fine `id` paid on `agora`, whatever its status was. `None` is the
      404 response for an unknown id. */
  method PagarMulta(db: Banco, id: string, agora: Day) returns (r: Option<Multa>)
    requires db.Valid()
    modifies db.multas
    ensures db.Valid()
    ensures old(db.Consistent()) ==> db.Consistent()
    ensures r == db.BuscarMulta(id)
    ensures r.None? ==> forall m :: m in db.multas ==> unchanged(m)
    ensures r.Some? ==>
      var m := r.value;
      && m.statusMulta == Some(PAGA) && m.dataPagamento == Some(agora) && m.dataMulta == old(m.dataMulta)
      && forall x :: x in db.multas && x != m ==> unchanged(x)
    // a pending fine leaves the pending count and totals, the user's own included; any other fine changes none of them
    ensures r.Some? ==> ContarPendentes(db.multas) == old(ContarPendentes(db.multas)) - MultaRepository.Peso(old(r.value.statusMulta) == Some(PENDENTE), 1)
    ensures r.Some? ==>
      CalcularTotalGeralPendentes(db.multas)
        == old(CalcularTotalGeralPendentes(db.multas)) - MultaRepository.Peso(old(r.value.statusMulta) == Some(PENDENTE), r.value.valorMulta)
    ensures r.Some? ==>
      CalcularTotalPendentes(db.multas, r.value.idUsuario)
        == old(CalcularTotalPendentes(db.multas, r.value.idUsuario)) - MultaRepository.Peso(old(r.value.statusMulta) == Some(PENDENTE), r.value.valorMulta)
  {
    r := db.BuscarMulta(id);
    if r.Some? {
      var m := r.value;
      db.AlterarMulta(m, PAGA, Some(agora));
      Totais(db, m);
    }
  }

  /** `cancelarMulta(id)`: marks fine `id` cancelled, whatever its status was; the payment date is
      left as it was. `None` is the 404 response for an unknown id. */
  method CancelarMulta(db: Banco, id: string) returns (r: Option<Multa>)
    requires db.Valid()
    modifies db.multas
    ensures db.Valid()
    ensures old(db.Consistent()) ==> db.Consistent()
    ensures r == db.BuscarMulta(id)
    ensures r.None? ==> forall m :: m in db.multas ==> unchanged(m)
    ensures r.Some? ==>
      var m := r.value;
      && m.statusMulta == Some(CANCELADA) && m.dataPagamento == old(m.dataPagamento) && m.dataMulta == old(m.dataMulta)
      && forall x :: x in db.multas && x != m ==> unchanged(x)
    ensures r.Some? ==> ContarPendentes(db.multas) == old(ContarPendentes(db.multas)) - MultaRepository.Peso(old(r.value.statusMulta) == Some(PENDENTE), 1)
    ensures r.Some? ==>
      CalcularTotalGeralPendentes(db.multas)
        == old(CalcularTotalGeralPendentes(db.multas)) - MultaRepository.Peso(old(r.value.statusMulta) == Some(PENDENTE), r.value.valorMulta)
    ensures r.Some? ==>
      CalcularTotalPendentes(db.multas, r.value.idUsuario)
        == old(CalcularTotalPendentes(db.multas, r.value.idUsuario)) - MultaRepository.Peso(old(r.value.statusMulta) == Some(PENDENTE), r.value.valorMulta)
  {
    r := db.BuscarMulta(id);
    if r.Some? {
      var m := r.value;
      db.AlterarMulta(m, CANCELADA, m.dataPagamento);
      Totais(db, m);
    }
  }

  /** After fine `m` of a valid database has moved from some status to one that is not
      `PENDENTE`, the pending count and totals have lost what `m` contributed. */
  twostate lemma Totais(db: Banco, new m: Multa)
    requires old(allocated(m)) && old(db.Valid()) && old(m in db.multas)
    requires db.multas == old(db.multas) && m.statusMulta.Some? && m.statusMulta != Some(PENDENTE)
    requires forall x :: x in db.multas && x != m ==> unchanged(x)
    ensures ContarPendentes(db.multas) == old(ContarPendentes(db.multas)) - MultaRepository.Peso(old(m.statusMulta) == Some(PENDENTE), 1)
    ensures CalcularTotalGeralPendentes(db.multas) == old(CalcularTotalGeralPendentes(db.multas)) - MultaRepository.Peso(old(m.statusMulta) == Some(PENDENTE), m.valorMulta)
    ensures CalcularTotalPendentes(db.multas, m.idUsuario) == old(CalcularTotalPendentes(db.multas, m.idUsuario)) - MultaRepository.Peso(old(m.statusMulta) == Some(PENDENTE), m.valorMulta)
  {
    var ms := db.multas;
    assert MultaRepository.SemRepeticao(ms);
    MultaRepository.ContagemAposMudanca(ms, m, MultaRepository.PorStatus(PENDENTE));
    MultaRepository.TotalAposMudanca(ms, m, MultaRepository.PorStatus(PENDENTE));
    MultaRepository.TotalAposMudanca(ms, m, MultaRepository.PorUsuarioEStatus(m.idUsuario, PENDENTE));
  }
}
