/** The circulation path of `EmprestimoService`: it checks the user (exists, active, no pending
    fine), takes the loan period from the caller, allows three renewals and fines late returns. */
module EmprestimoService {
  import opened Base
  import opened ExemplarEntity
  import opened EmprestimoEntity
  import opened MultaEntity
  import opened Persistencia
  import MultaRepository
  import Politica

  /** Why `realizarEmprestimo` refuses to lend copy `idExemplar` to user `idUsuario`, in the order
      the service checks: the copy exists, is available, the user exists, is active and has no
      pending fine. */
  function RecusaEmprestimo(db: Banco, idExemplar: string, idUsuario: string): (r: Option<Erro>)
    reads db, db.exemplares, db.multas
    ensures r.None? ==> db.BuscarExemplar(idExemplar).Some? && idUsuario in db.usuarios && db.usuarios[idUsuario]
    ensures r.None? ==> db.BuscarExemplar(idExemplar).value.disponivel != Some(false)
    ensures r.None? ==> forall m :: m in db.multas && m.idUsuario == idUsuario ==> m.statusMulta != Some(PENDENTE)
    // each error is reported exactly when its check fails and every earlier check passed
    ensures r == Some(ExemplarNaoEncontrado) <==> db.BuscarExemplar(idExemplar).None?
    ensures r == Some(ExemplarIndisponivel) <==>
      db.BuscarExemplar(idExemplar).Some? && db.BuscarExemplar(idExemplar).value.disponivel == Some(false)
    ensures r == Some(UsuarioNaoEncontrado) <==>
      db.BuscarExemplar(idExemplar).Some? && db.BuscarExemplar(idExemplar).value.disponivel != Some(false)
      && idUsuario !in db.usuarios
    ensures r == Some(UsuarioInativo) <==>
      db.BuscarExemplar(idExemplar).Some? && db.BuscarExemplar(idExemplar).value.disponivel != Some(false)
      && idUsuario in db.usuarios && !db.usuarios[idUsuario]
    ensures r == Some(MultasPendentes) <==>
      db.BuscarExemplar(idExemplar).Some? && db.BuscarExemplar(idExemplar).value.disponivel != Some(false)
      && idUsuario in db.usuarios && db.usuarios[idUsuario]
      && MultaRepository.CountByUsuarioAndStatusMulta(db.multas, idUsuario, PENDENTE) > 0
    ensures r.Some? ==> r.value in {ExemplarNaoEncontrado, ExemplarIndisponivel, UsuarioNaoEncontrado, UsuarioInativo, MultasPendentes}
  {
    match db.BuscarExemplar(idExemplar)
    case None => Some(ExemplarNaoEncontrado)
    case Some(c) =>
      if c.disponivel == Some(false) then Some(ExemplarIndisponivel)
      else if idUsuario !in db.usuarios then Some(UsuarioNaoEncontrado)
      else if !db.usuarios[idUsuario] then Some(UsuarioInativo)
      else if MultaRepository.CountByUsuarioAndStatusMulta(db.multas, idUsuario, PENDENTE) > 0 then Some(MultasPendentes)
      else None
  }

  /** `realizarEmprestimo`: lends copy `idExemplar` to user `idUsuario` for `diasEmprestimo` days.
      `idNovo` is the fresh loan id and `hoje` today's date. */
  method RealizarEmprestimo(db: Banco, idExemplar: string, idUsuario: string, diasEmprestimo: int, idNovo: string, hoje: Day)
    returns (r: Result<Emprestimo, Erro>)
    requires db.Valid()
    requires db.BuscarEmprestimo(idNovo).None?
    modifies db, db.exemplares
    ensures db.Valid()
    ensures old(db.Consistent()) ==> db.Consistent()
    ensures db.exemplares == old(db.exemplares) && db.usuarios == old(db.usuarios) && db.multas == old(db.multas)
    // refused exactly for the first guard that fails, and then nothing changes
    ensures r.Failure? <==> old(RecusaEmprestimo(db, idExemplar, idUsuario)).Some?
    ensures r.Failure? ==> Some(r.error) == old(RecusaEmprestimo(db, idExemplar, idUsuario))
    ensures r.Failure? ==> unchanged(db) && forall c :: c in db.exemplares ==> unchanged(c)
    // an accepted request adds an ATIVO loan due `diasEmprestimo` days from today and takes the copy
    ensures r.Success? ==>
      var e := r.value;
      && fresh(e)
      && db.emprestimos == old(db.emprestimos) + [e]
      && e.idEmprestimo == idNovo && db.BuscarExemplar(idExemplar) == Some(e.exemplar) && e.idUsuario == idUsuario
      && e.dataEmprestimo == Some(hoje) && e.dataPrevistaDevolucao == Some(hoje + diasEmprestimo)
      && e.dataDevolucao == None && e.renovacoes == Some(0) && e.statusEmprestimo == Some(ATIVO)
      && e.exemplar.disponivel == Some(false)
      && e.exemplar.estadoConservacao == old(db.BuscarExemplar(idExemplar).value.estadoConservacao)
      && e.exemplar.dataCadastro == old(db.BuscarExemplar(idExemplar).value.dataCadastro)
      && forall c :: c in db.exemplares && c != e.exemplar ==> unchanged(c)
  {
    var recusa := RecusaEmprestimo(db, idExemplar, idUsuario);
    if recusa.Some? {
      return Failure(recusa.value);
    }
    var exemplar := db.BuscarExemplar(idExemplar).value;
    // a stored copy has its `disponivel` flag, and the guards found it not false
    assert exemplar in db.exemplares && exemplar.Persistido();
    assert exemplar.disponivel.value;
    var e := Emprestar(db, exemplar, idUsuario, diasEmprestimo, idNovo, hoje);
    r := Success(e);
  }

  /** The part of `realizarEmprestimo` after its guards: builds the ATIVO loan of
      `exemplar` to `idUsuario` due `diasEmprestimo` days from `hoje`, takes the copy and saves both. */
  method Emprestar(db: Banco, exemplar: Exemplar, idUsuario: string, diasEmprestimo: int, idNovo: string, hoje: Day)
    returns (e: Emprestimo)
    requires db.Valid()
    requires db.BuscarEmprestimo(idNovo).None?
    requires exemplar in db.exemplares && exemplar.disponivel == Some(true) && idUsuario in db.usuarios
    modifies db, exemplar
    ensures db.Valid()
    ensures old(db.Consistent()) ==> db.Consistent()
    ensures db.exemplares == old(db.exemplares) && db.usuarios == old(db.usuarios) && db.multas == old(db.multas)
    ensures fresh(e) && db.emprestimos == old(db.emprestimos) + [e]
    ensures e.idEmprestimo == idNovo && e.exemplar == exemplar && e.idUsuario == idUsuario
    ensures e.dataEmprestimo == Some(hoje) && e.dataPrevistaDevolucao == Some(hoje + diasEmprestimo)
    ensures e.dataDevolucao == None && e.renovacoes == Some(0) && e.statusEmprestimo == Some(ATIVO)
    ensures exemplar.disponivel == Some(false)
    ensures exemplar.estadoConservacao == old(exemplar.estadoConservacao) && exemplar.dataCadastro == old(exemplar.dataCadastro)
  {
    e := new Emprestimo(idNovo, exemplar, idUsuario);
    e.dataEmprestimo := Some(hoje);
    e.dataPrevistaDevolucao := Some(hoje + diasEmprestimo);
    e.statusEmprestimo := Some(ATIVO);
    assert old(db.Consistent()) ==> db.Consistent();
    db.RegistrarEmprestimo(e, hoje);
    assert db.NovoAberto(e);
  }

  /** `realizarDevolucao`: returns loan `idEmprestimo` on day `hoje`. A late return is fined
      `Politica.ValorDiario` per day late, under the fresh fine id `idMulta`. */
  method RealizarDevolucao(db: Banco, idEmprestimo: string, idMulta: string, hoje: Day)
    returns (r: Result<Emprestimo, Erro>)
    requires db.Valid()
    requires db.BuscarMulta(idMulta).None?
    modifies db, db.emprestimos, db.exemplares
    ensures db.Valid()
    ensures old(db.Consistent()) ==> db.Consistent()
    ensures db.exemplares == old(db.exemplares) && db.usuarios == old(db.usuarios) && db.emprestimos == old(db.emprestimos)
    // refused for a missing loan and for one already returned; any other status is accepted
    ensures match db.BuscarEmprestimo(idEmprestimo)
      case None => r == Failure(EmprestimoNaoEncontrado)
      case Some(e) => r == if old(e.statusEmprestimo) == Some(DEVOLVIDO) then Failure(EmprestimoJaDevolvido) else Success(e)
    ensures r.Failure? ==> unchanged(db) && (forall e :: e in db.emprestimos ==> unchanged(e)) && forall c :: c in db.exemplares ==> unchanged(c)
    // an accepted return closes the loan today and frees its copy, and nothing else changes in either
    ensures r.Success? ==>
      var e := r.value;
      && e.dataDevolucao == Some(hoje) && e.statusEmprestimo == Some(DEVOLVIDO) && e.exemplar.disponivel == Some(true)
      && e.dataEmprestimo == old(e.dataEmprestimo) && e.dataPrevistaDevolucao == old(e.dataPrevistaDevolucao)
      && e.renovacoes == old(e.renovacoes)
      && e.exemplar.estadoConservacao == old(e.exemplar.estadoConservacao) && e.exemplar.dataCadastro == old(e.exemplar.dataCadastro)
      && (forall x :: x in db.emprestimos && x != e ==> unchanged(x))
      && forall c :: c in db.exemplares && c != e.exemplar ==> unchanged(c)
    // ... and saves one PENDENTE late fine for the user exactly when the loan was overdue
    ensures r.Success? ==>
      var e := r.value;
      var atraso := hoje - e.dataPrevistaDevolucao.value;
      if atraso > 0 then
        && |db.multas| == |old(db.multas)| + 1
        && db.multas[..|old(db.multas)|] == old(db.multas)
        && var m := db.multas[|old(db.multas)|];
        && fresh(m) && m.idMulta == idMulta && m.emprestimo == Some(e) && m.idUsuario == e.idUsuario
        && m.tipoMulta == ATRASO && m.valorMulta == atraso * Politica.ValorDiario
        && m.statusMulta == Some(PENDENTE) && m.dataMulta == Some(hoje) && m.dataPagamento == None
      else db.multas == old(db.multas)
  {
    var busca := db.BuscarEmprestimo(idEmprestimo);
    if busca.None? {
      return Failure(EmprestimoNaoEncontrado);
    }
    var e := busca.value;
    if e.statusEmprestimo == Some(DEVOLVIDO) {
      return Failure(EmprestimoJaDevolvido);
    }
    Devolver(db, e, idMulta, hoje);
    r := Success(e);
  }

  /** The part of `realizarDevolucao` after its guards: fines the return of `e` if it is late,
      then closes the loan and frees the copy. */
  method Devolver(db: Banco, e: Emprestimo, idMulta: string, hoje: Day)
    requires db.Valid()
    requires db.BuscarMulta(idMulta).None?
    requires e in db.emprestimos && Aberto(e)
    modifies db, e, e.exemplar
    ensures db.Valid()
    ensures old(db.Consistent()) ==> db.Consistent()
    ensures db.exemplares == old(db.exemplares) && db.usuarios == old(db.usuarios) && db.emprestimos == old(db.emprestimos)
    ensures e.dataDevolucao == Some(hoje) && e.statusEmprestimo == Some(DEVOLVIDO) && e.exemplar.disponivel == Some(true)
    ensures e.dataEmprestimo == old(e.dataEmprestimo) && e.dataPrevistaDevolucao == old(e.dataPrevistaDevolucao)
    ensures e.renovacoes == old(e.renovacoes)
    ensures e.exemplar.estadoConservacao == old(e.exemplar.estadoConservacao) && e.exemplar.dataCadastro == old(e.exemplar.dataCadastro)
    ensures
      var atraso := hoje - e.dataPrevistaDevolucao.value;
      if atraso > 0 then
        && |db.multas| == |old(db.multas)| + 1
        && db.multas[..|old(db.multas)|] == old(db.multas)
        && var m := db.multas[|old(db.multas)|];
        && fresh(m) && m.idMulta == idMulta && m.emprestimo == Some(e) && m.idUsuario == e.idUsuario
        && m.tipoMulta == ATRASO && m.valorMulta == atraso * Politica.ValorDiario
        && m.statusMulta == Some(PENDENTE) && m.dataMulta == Some(hoje) && m.dataPagamento == None
      else db.multas == old(db.multas)
  {
    var diasAtraso := Politica.DiasAtraso(e.dataPrevistaDevolucao.value, hoje);
    var multa: Option<Multa> := None;
    if diasAtraso > 0 {
      var m := new Multa(idMulta, Some(e), e.idUsuario, ATRASO, diasAtraso * Politica.ValorDiario);
      m.statusMulta := Some(PENDENTE);
      multa := Some(m);
    }
    assert old(db.Consistent()) ==> db.Consistent();
    db.RegistrarDevolucao(e, hoje, multa);
  }

  /** `renovarEmprestimo`: extends loan `idEmprestimo` by `diasRenovacao` days. */
  method RenovarEmprestimo(db: Banco, idEmprestimo: string, diasRenovacao: int)
    returns (r: Result<Emprestimo, Erro>)
    requires db.Valid()
    modifies db.emprestimos
    ensures db.Valid()
    ensures old(db.Consistent()) ==> db.Consistent()
    // refused unless the loan exists, is ATIVO and has been renewed fewer than three times
    ensures match db.BuscarEmprestimo(idEmprestimo)
      case None => r == Failure(EmprestimoNaoEncontrado)
      case Some(e) =>
        r == if old(e.statusEmprestimo) != Some(ATIVO) then Failure(EmprestimoNaoAtivo)
             else if old(e.renovacoes.value) >= Politica.MaxRenovacoesServico then Failure(LimiteRenovacoes)
             else Success(e)
    ensures r.Failure? ==> forall e :: e in db.emprestimos ==> unchanged(e)
    // an accepted renewal moves the due date and counts the renewal, and changes nothing else
    ensures r.Success? ==>
      var e := r.value;
      && e.dataPrevistaDevolucao == Some(old(e.dataPrevistaDevolucao.value) + diasRenovacao)
      && e.renovacoes == Some(old(e.renovacoes.value) + 1)
      && e.renovacoes.value <= Politica.MaxRenovacoesServico
      && e.statusEmprestimo == Some(ATIVO) && e.dataEmprestimo == old(e.dataEmprestimo) && e.dataDevolucao == old(e.dataDevolucao)
      && forall x :: x in db.emprestimos && x != e ==> unchanged(x)
  {
    var busca := db.BuscarEmprestimo(idEmprestimo);
    if busca.None? {
      return Failure(EmprestimoNaoEncontrado);
    }
    var e := busca.value;
    if e.statusEmprestimo != Some(ATIVO) {
      return Failure(EmprestimoNaoAtivo);
    }
    assert e.Persistido();
    if e.renovacoes.value >= Politica.MaxRenovacoesServico {
      return Failure(LimiteRenovacoes);
    }
    db.RegistrarRenovacao(e, diasRenovacao);
    r := Success(e);
  }

  /** Two checkouts of the same copy in a row: once the first is accepted the copy is taken, so
      the second is refused as unavailable, whoever asks and for however long. */
  method EmprestimoRepetido(db: Banco, idExemplar: string, u1: string, u2: string, dias1: int, dias2: int,
                            id1: string, id2: string, hoje: Day)
    returns (r1: Result<Emprestimo, Erro>, r2: Result<Emprestimo, Erro>)
    requires db.Valid()
    requires id1 != id2 && db.BuscarEmprestimo(id1).None? && db.BuscarEmprestimo(id2).None?
    modifies db, db.exemplares
    ensures r1.Success? ==> r2 == Failure(ExemplarIndisponivel)
    ensures r1.Success? ==> db.emprestimos == old(db.emprestimos) + [r1.value]
  {
    r1 := RealizarEmprestimo(db, idExemplar, u1, dias1, id1, hoje);
    r2 := RealizarEmprestimo(db, idExemplar, u2, dias2, id2, hoje);
  }

  /** Two returns of the same loan in a row: once the first is accepted the loan is DEVOLVIDO, so
      the second is refused and fines nothing; the pair adds at most one fine. */
  method DevolucaoRepetida(db: Banco, idEmprestimo: string, idMulta1: string, idMulta2: string, hoje1: Day, hoje2: Day)
    returns (r1: Result<Emprestimo, Erro>, r2: Result<Emprestimo, Erro>)
    requires db.Valid()
    requires idMulta1 != idMulta2 && db.BuscarMulta(idMulta1).None? && db.BuscarMulta(idMulta2).None?
    modifies db, db.emprestimos, db.exemplares
    ensures r1.Success? ==> r2 == Failure(EmprestimoJaDevolvido)
    ensures |old(db.multas)| <= |db.multas| <= |old(db.multas)| + 1
  {
    r1 := RealizarDevolucao(db, idEmprestimo, idMulta1, hoje1);
    r2 := RealizarDevolucao(db, idEmprestimo, idMulta2, hoje2);
  }
}
