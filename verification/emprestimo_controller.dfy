/** The circulation path of `EmprestimoController`: it checks only that the copy and the user
    exist and that the copy is available, fixes 14-day loans and 7-day renewals, allows two
    renewals and never fines. Every exception it catches becomes a 500 response. */
module EmprestimoController {
  import opened Base
  import opened ExemplarEntity
  import opened EmprestimoEntity
  import opened Persistencia
  import opened EmprestimoDto
  import EmprestimoService
  import Politica

  /** The HTTP responses of the three endpoints: 200 with the loan's view, 400 for a refused
      request, 500 for a caught exception. */
  datatype Resposta =
    | Ok(corpo: EmprestimoDTO)
    | BadRequest(erro: Erro)
    | InternalServerError(erro: Erro)

  /** Why the controller refuses to lend copy `idExemplar` to user `idUsuario`, in the order it
      checks. The user's `ativo` flag and pending fines are not consulted. */
  function RecusaEmprestimo(db: Banco, idExemplar: string, idUsuario: string): (r: Option<Resposta>)
    reads db, db.exemplares
    ensures r.None? <==> db.BuscarExemplar(idExemplar).Some? && db.BuscarExemplar(idExemplar).value.disponivel != Some(false) && idUsuario in db.usuarios
    // only an unavailable copy is a 400; a missing copy or user surfaces as a caught exception
    ensures r.Some? ==> (r.value.BadRequest? <==> db.BuscarExemplar(idExemplar).Some? && db.BuscarExemplar(idExemplar).value.disponivel == Some(false))
    ensures r.Some? && !r.value.BadRequest? ==> r.value.InternalServerError?
    ensures r == Some(InternalServerError(ExemplarNaoEncontrado)) <==> db.BuscarExemplar(idExemplar).None?
    ensures r == Some(BadRequest(ExemplarIndisponivel)) <==>
      db.BuscarExemplar(idExemplar).Some? && db.BuscarExemplar(idExemplar).value.disponivel == Some(false)
    ensures r == Some(InternalServerError(UsuarioNaoEncontrado)) <==>
      db.BuscarExemplar(idExemplar).Some? && db.BuscarExemplar(idExemplar).value.disponivel != Some(false)
      && idUsuario !in db.usuarios
  {
    match db.BuscarExemplar(idExemplar)
    case None => Some(InternalServerError(ExemplarNaoEncontrado))
    case Some(c) =>
      if c.disponivel == Some(false) then Some(BadRequest(ExemplarIndisponivel))
      else if idUsuario !in db.usuarios then Some(InternalServerError(UsuarioNaoEncontrado))
      else None
  }

  /** `realizarEmprestimo` (and its alias `criar`): lends copy `idExemplar` to user `idUsuario` for
      14 days from `hoje`, under the fresh loan id `idNovo`. */
  method RealizarEmprestimo(db: Banco, idExemplar: string, idUsuario: string, idNovo: string, hoje: Day)
    returns (r: Resposta)
    requires db.Valid()
    requires db.BuscarEmprestimo(idNovo).None?
    modifies db, db.exemplares
    ensures db.Valid()
    ensures old(db.Consistent()) ==> db.Consistent()
    ensures db.exemplares == old(db.exemplares) && db.usuarios == old(db.usuarios) && db.multas == old(db.multas)
    // refused exactly for the first check that fails, and then nothing changes
    ensures !r.Ok? <==> old(RecusaEmprestimo(db, idExemplar, idUsuario)).Some?
    ensures !r.Ok? ==> Some(r) == old(RecusaEmprestimo(db, idExemplar, idUsuario))
    ensures !r.Ok? ==> unchanged(db) && forall c :: c in db.exemplares ==> unchanged(c)
    // an accepted request adds an ATIVO loan, never renewed, due in 14 days, and takes the copy
    ensures r.Ok? ==>
      && |db.emprestimos| == |old(db.emprestimos)| + 1
      && db.emprestimos[..|old(db.emprestimos)|] == old(db.emprestimos)
      && var e := db.emprestimos[|old(db.emprestimos)|];
      && fresh(e) && r.corpo == FromEntity(e, hoje)
      && e.idEmprestimo == idNovo && db.BuscarExemplar(idExemplar) == Some(e.exemplar) && e.idUsuario == idUsuario
      && e.dataEmprestimo == Some(hoje) && e.dataPrevistaDevolucao == Some(hoje + Politica.PrazoControlador)
      && e.dataDevolucao == None && e.renovacoes == Some(0) && e.statusEmprestimo == Some(ATIVO)
      && e.exemplar.disponivel == Some(false)
      && e.exemplar.estadoConservacao == old(db.BuscarExemplar(idExemplar).value.estadoConservacao)
      && e.exemplar.dataCadastro == old(db.BuscarExemplar(idExemplar).value.dataCadastro)
      && forall c :: c in db.exemplares && c != e.exemplar ==> unchanged(c)
  {
    var recusa := RecusaEmprestimo(db, idExemplar, idUsuario);
    if recusa.Some? {
      return recusa.value;
    }
    var exemplar := db.BuscarExemplar(idExemplar).value;
    // a stored copy has its `disponivel` flag, and the check found it not false
    assert exemplar in db.exemplares && exemplar.Persistido();
    assert exemplar.disponivel.value;
    var e := Emprestar(db, exemplar, idUsuario, idNovo, hoje);
    r := Ok(FromEntity(e, hoje));
  }

  /** The part of `realizarEmprestimo` after its checks: builds the loan, takes the copy and
      saves both. */
  method Emprestar(db: Banco, exemplar: Exemplar, idUsuario: string, idNovo: string, hoje: Day)
    returns (e: Emprestimo)
    requires db.Valid()
    requires db.BuscarEmprestimo(idNovo).None?
    requires exemplar in db.exemplares && exemplar.disponivel == Some(true) && idUsuario in db.usuarios
    modifies db, exemplar
    ensures db.Valid()
    ensures old(db.Consistent()) ==> db.Consistent()
    ensures db.exemplares == old(db.exemplares) && db.usuarios == old(db.usuarios) && db.multas == old(db.multas)
    ensures fresh(e) && db.emprestimos == old(db.emprestimos) + [e]
    ensures e.idEmprestimo == idNovo && e.exemplar == exemplar && e.idUsuario == idUsuario
    ensures e.dataEmprestimo == Some(hoje) && e.dataPrevistaDevolucao == Some(hoje + Politica.PrazoControlador)
    ensures e.dataDevolucao == None && e.renovacoes == Some(0) && e.statusEmprestimo == Some(ATIVO)
    ensures exemplar.disponivel == Some(false)
    ensures exemplar.estadoConservacao == old(exemplar.estadoConservacao) && exemplar.dataCadastro == old(exemplar.dataCadastro)
  {
    e := new Emprestimo(idNovo, exemplar, idUsuario);
    e.dataEmprestimo := Some(hoje);
    e.dataPrevistaDevolucao := Some(hoje + Politica.PrazoControlador);
    e.statusEmprestimo := Some(ATIVO);
    e.renovacoes := Some(0);
    assert old(db.Consistent()) ==> db.Consistent();
    db.RegistrarEmprestimo(e, hoje);
    assert db.NovoAberto(e);
  }

  /** `devolver`: returns loan `id` on day `hoje`. Only an `ATIVO` loan is accepted, and no fine
      is created however late the return. */
  method Devolver(db: Banco, id: string, hoje: Day) returns (r: Resposta)
    requires db.Valid()
    modifies db, db.emprestimos, db.exemplares
    ensures db.Valid()
    ensures old(db.Consistent()) ==> db.Consistent()
    ensures db.exemplares == old(db.exemplares) && db.usuarios == old(db.usuarios)
    ensures db.emprestimos == old(db.emprestimos) && db.multas == old(db.multas)
    ensures match db.BuscarEmprestimo(id)
      case None => r == InternalServerError(EmprestimoNaoEncontrado)
      case Some(e) =>
        if old(e.statusEmprestimo) != Some(ATIVO) then r == BadRequest(EmprestimoNaoAtivo)
        else r == Ok(FromEntity(e, hoje))
    ensures !r.Ok? ==> (forall e :: e in db.emprestimos ==> unchanged(e)) && forall c :: c in db.exemplares ==> unchanged(c)
    // an accepted return closes the loan today and frees its copy, fines nothing, and changes nothing else
    ensures r.Ok? ==>
      var e := db.BuscarEmprestimo(id).value;
      && e.dataDevolucao == Some(hoje) && e.statusEmprestimo == Some(DEVOLVIDO) && e.exemplar.disponivel == Some(true)
      && e.dataEmprestimo == old(e.dataEmprestimo) && e.dataPrevistaDevolucao == old(e.dataPrevistaDevolucao)
      && e.renovacoes == old(e.renovacoes)
      && e.exemplar.estadoConservacao == old(e.exemplar.estadoConservacao) && e.exemplar.dataCadastro == old(e.exemplar.dataCadastro)
      && (forall x :: x in db.emprestimos && x != e ==> unchanged(x))
      && forall c :: c in db.exemplares && c != e.exemplar ==> unchanged(c)
  {
    var busca := db.BuscarEmprestimo(id);
    if busca.None? {
      return InternalServerError(EmprestimoNaoEncontrado);
    }
    var e := busca.value;
    if e.statusEmprestimo != Some(ATIVO) {
      return BadRequest(EmprestimoNaoAtivo);
    }
    db.RegistrarDevolucao(e, hoje, None);
    r := Ok(FromEntity(e, hoje));
  }

  /** `renovar`: extends loan `id` by 7 days. Only an `ATIVO` loan renewed fewer than two times
      is accepted. */
  method Renovar(db: Banco, id: string, hoje: Day) returns (r: Resposta)
    requires db.Valid()
    modifies db.emprestimos
    ensures db.Valid()
    ensures old(db.Consistent()) ==> db.Consistent()
    ensures match db.BuscarEmprestimo(id)
      case None => r == InternalServerError(EmprestimoNaoEncontrado)
      case Some(e) =>
        if old(e.statusEmprestimo) != Some(ATIVO) then r == BadRequest(EmprestimoNaoAtivo)
        else if old(e.renovacoes.value) >= Politica.MaxRenovacoesControlador then r == BadRequest(LimiteRenovacoes)
        else r == Ok(FromEntity(e, hoje))
    ensures !r.Ok? ==> forall e :: e in db.emprestimos ==> unchanged(e)
    // an accepted renewal adds 7 days and counts the renewal, and changes nothing else
    ensures r.Ok? ==>
      var e := db.BuscarEmprestimo(id).value;
      && e.dataPrevistaDevolucao == Some(old(e.dataPrevistaDevolucao.value) + Politica.RenovacaoControlador)
      && e.renovacoes == Some(old(e.renovacoes.value) + 1)
      && e.renovacoes.value <= Politica.MaxRenovacoesControlador
      && e.statusEmprestimo == Some(ATIVO) && e.dataEmprestimo == old(e.dataEmprestimo) && e.dataDevolucao == old(e.dataDevolucao)
      && forall x :: x in db.emprestimos && x != e ==> unchanged(x)
  {
    var busca := db.BuscarEmprestimo(id);
    if busca.None? {
      return InternalServerError(EmprestimoNaoEncontrado);
    }
    var e := busca.value;
    if e.statusEmprestimo != Some(ATIVO) {
      return BadRequest(EmprestimoNaoAtivo);
    }
    assert e.Persistido();
    if e.renovacoes.value >= Politica.MaxRenovacoesControlador {
      return BadRequest(LimiteRenovacoes);
    }
    db.RegistrarRenovacao(e, Politica.RenovacaoControlador);
    r := Ok(FromEntity(e, hoje));
  }

  /** The service's checkout is the stricter of the two: every request the controller refuses the
      service refuses too, for the same reason, and the only requests the controller accepts but the
      service refuses come from an inactive user or a user with a pending fine. */
  lemma ServicoMaisRestritivo(db: Banco, idExemplar: string, idUsuario: string)
    ensures RecusaEmprestimo(db, idExemplar, idUsuario).Some? ==>
      EmprestimoService.RecusaEmprestimo(db, idExemplar, idUsuario) == Some(RecusaEmprestimo(db, idExemplar, idUsuario).value.erro)
    ensures RecusaEmprestimo(db, idExemplar, idUsuario).None? ==>
      EmprestimoService.RecusaEmprestimo(db, idExemplar, idUsuario) in {None, Some(UsuarioInativo), Some(MultasPendentes)}
  {
  }
}
