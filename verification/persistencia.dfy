/** The MySQL tables that circulation reads and writes, with the integrity of their rows and the
    consistency that the circulation operations keep. */
module Persistencia {
  import opened Base
  import opened ExemplarEntity
  import opened EmprestimoEntity
  import opened MultaEntity
  import Politica

  /** The `RuntimeException` messages and error bodies of the circulation paths. */
  datatype Erro =
    | ExemplarNaoEncontrado
    | ExemplarIndisponivel
    | UsuarioNaoEncontrado
    | UsuarioInativo
    | MultasPendentes
    | EmprestimoNaoEncontrado
    | EmprestimoJaDevolvido
    | EmprestimoNaoAtivo
    | LimiteRenovacoes

  /** A loan that still holds its copy: the service's return accepts exactly these. */
  predicate Aberto(e: Emprestimo)
    reads e
  {
    e.statusEmprestimo != Some(DEVOLVIDO)
  }

  /** `findById` on the copies: the first row with the key. */
  function ProcurarExemplar(cs: seq<Exemplar>, id: string): (r: Option<Exemplar>)
    ensures r.Some? ==> r.value in cs && r.value.idExemplar == id
    ensures r.None? ==> forall c :: c in cs ==> c.idExemplar != id
  {
    if cs == [] then None
    else if cs[0].idExemplar == id then Some(cs[0])
    else ProcurarExemplar(cs[1..], id)
  }

  /** `findById` on the loans: the first row with the key. */
  function ProcurarEmprestimo(es: seq<Emprestimo>, id: string): (r: Option<Emprestimo>)
    ensures r.Some? ==> r.value in es && r.value.idEmprestimo == id
    ensures r.None? ==> forall e :: e in es ==> e.idEmprestimo != id
  {
    if es == [] then None
    else if es[0].idEmprestimo == id then Some(es[0])
    else ProcurarEmprestimo(es[1..], id)
  }

  /** `findById` on the fines: the first row with the key. */
  function ProcurarMulta(ms: seq<Multa>, id: string): (r: Option<Multa>)
    ensures r.Some? ==> r.value in ms && r.value.idMulta == id
    ensures r.None? ==> forall m :: m in ms ==> m.idMulta != id
  {
    if ms == [] then None
    else if ms[0].idMulta == id then Some(ms[0])
    else ProcurarMulta(ms[1..], id)
  }

  class Banco {
    var exemplares: seq<Exemplar>
    /** The user directory, reduced to each user's `ativo` flag. */
    var usuarios: map<string, bool>
    var emprestimos: seq<Emprestimo>
    var multas: seq<Multa>

    /** A database with the given users and no copy, loan or fine. */
    constructor (usuarios: map<string, bool>)
      ensures Valid() && Consistent()
      ensures exemplares == [] && emprestimos == [] && multas == [] && this.usuarios == usuarios
    {
      exemplares := [];
      this.usuarios := usuarios;
      emprestimos := [];
      multas := [];
    }

    /** Primary keys are unique in each table. */
    ghost predicate ChavesUnicas()
      reads this`exemplares, this`emprestimos, this`multas
    {
      && (forall i, j :: 0 <= i < j < |exemplares| ==> exemplares[i].idExemplar != exemplares[j].idExemplar)
      && (forall i, j :: 0 <= i < j < |emprestimos| ==> emprestimos[i].idEmprestimo != emprestimos[j].idEmprestimo)
      && (forall i, j :: 0 <= i < j < |multas| ==> multas[i].idMulta != multas[j].idMulta)
    }

    /** Foreign keys point at stored rows. */
    ghost predicate Referencias()
      reads this
    {
      && (forall e :: e in emprestimos ==> e.exemplar in exemplares && e.idUsuario in usuarios)
      && (forall m :: m in multas ==> m.idUsuario in usuarios)
      && (forall m :: m in multas && m.emprestimo.Some? ==> m.emprestimo.value in emprestimos)
    }

    /** Every stored row went through its persistence hook, so the nullable columns that the hooks
        fill are set, and a loan's due date (a `NOT NULL` column) is set. */
    ghost predicate Persistidos()
      reads this`exemplares, this`emprestimos, this`multas, exemplares, emprestimos, multas
    {
      && (forall c :: c in exemplares ==> c.Persistido())
      && (forall e :: e in emprestimos ==> e.Persistido() && e.dataPrevistaDevolucao.Some?)
      && (forall m :: m in multas ==> m.Persistido())
    }

    /** The integrity of the stored rows: unique keys and resolving foreign keys, which MySQL
        enforces, and the columns that the `@PrePersist` hooks fill on insert. */
    ghost predicate Valid()
      reads this, exemplares, emprestimos, multas
    {
      ChavesUnicas() && Referencias() && Persistidos()
    }

    /** Some loan that has not been returned holds copy `c`. */
    ghost predicate Emprestado(c: Exemplar)
      reads this`emprestimos, emprestimos
    {
      exists e :: e in emprestimos && e.exemplar == c && Aberto(e)
    }

    /** A copy is unavailable exactly while a loan that has not been returned holds it. */
    ghost predicate DisponibilidadeCoerente()
      reads this`exemplares, this`emprestimos, exemplares, emprestimos
    {
      forall c :: c in exemplares ==> (c.disponivel == Some(false) <==> Emprestado(c))
    }

    /** At most one loan that has not been returned holds a copy. */
    ghost predicate UmEmprestimoPorExemplar()
      reads this`emprestimos, emprestimos
    {
      forall e1, e2 :: e1 in emprestimos && e2 in emprestimos && Aberto(e1) && Aberto(e2) && e1.exemplar == e2.exemplar
        ==> e1 == e2
    }

    /** A loan has a return date exactly when it has been returned, and no loan has been renewed
        more often than the more generous of the two policies allows. */
    ghost predicate EmprestimosCoerentes()
      reads this`emprestimos, emprestimos
    {
      && (forall e :: e in emprestimos ==> (e.dataDevolucao.None? <==> Aberto(e)))
      && (forall e :: e in emprestimos && e.renovacoes.Some? ==> 0 <= e.renovacoes.value <= Politica.MaxRenovacoesServico)
    }

    /** A late fine stands for one late return: its loan is returned, was returned after its
        due date, is the user's, and the amount is what the late-fine rule gives. */
    ghost predicate MultaJustificada(m: Multa)
      reads this`emprestimos, emprestimos
    {
      && m.emprestimo.Some?
      && m.emprestimo.value in emprestimos
      && var e := m.emprestimo.value;
      && e.statusEmprestimo == Some(DEVOLVIDO)
      && e.dataPrevistaDevolucao.Some?
      && e.dataDevolucao.Some?
      && Politica.MultaPorAtraso(e.dataPrevistaDevolucao.value, e.dataDevolucao.value) == Some(m.valorMulta)
      && m.idUsuario == e.idUsuario
    }

    /** Every late fine stands for a late return, and no return is fined twice. */
    ghost predicate MultasCoerentes()
      reads this`emprestimos, this`multas, emprestimos
    {
      && (forall m :: m in multas && m.tipoMulta == ATRASO ==> MultaJustificada(m))
      && (forall m1, m2 :: m1 in multas && m2 in multas && m1.tipoMulta == ATRASO && m2.tipoMulta == ATRASO && m1.emprestimo == m2.emprestimo
            ==> m1 == m2)
    }

    /** The consistency that the circulation operations keep. */
    ghost predicate Consistent()
      reads this, exemplares, emprestimos, multas
    {
      DisponibilidadeCoerente() && UmEmprestimoPorExemplar() && EmprestimosCoerentes() && MultasCoerentes()
    }

    function BuscarExemplar(id: string): (r: Option<Exemplar>)
      reads this
    {
      ProcurarExemplar(exemplares, id)
    }

    function BuscarEmprestimo(id: string): (r: Option<Emprestimo>)
      reads this
    {
      ProcurarEmprestimo(emprestimos, id)
    }

    function BuscarMulta(id: string): (r: Option<Multa>)
      reads this
    {
      ProcurarMulta(multas, id)
    }

    /** No late fine refers to loan `e`. */
    ghost predicate SemMultaDeAtraso(e: Emprestimo)
      reads this`multas
    {
      forall m :: m in multas && m.tipoMulta == ATRASO ==> m.emprestimo != Some(e)
    }

    /** A loan that has not been returned has not been fined for lateness. */
    lemma AbertoSemMulta(e: Emprestimo)
      requires Consistent()
      requires e in emprestimos && Aberto(e)
      ensures SemMultaDeAtraso(e)
    {
    }

    /** Stores a new copy as `save(new Exemplar())` does: the copy keeps its defaults, so it is available. */
    method CadastrarExemplar(id: string, agora: Day) returns (c: Exemplar)
      requires Valid()
      requires BuscarExemplar(id).None?
      modifies this
      ensures Valid()
      ensures old(Consistent()) ==> Consistent()
      ensures fresh(c) && exemplares == old(exemplares) + [c]
      ensures c.idExemplar == id && c.disponivel == Some(true) && c.estadoConservacao == Some(BOM)
      ensures c.dataCadastro == Some(agora)
      ensures usuarios == old(usuarios) && emprestimos == old(emprestimos) && multas == old(multas)
    {
      c := new Exemplar(id);
      c.OnCreate(agora);
      exemplares := exemplares + [c];
      assert ChavesUnicas();
      if old(Consistent()) {
        ExemplarPreservaConsistencia(c);
      }
    }

    /** The writes that both checkout paths end with: the copy is marked unavailable and saved,
        then the new loan `e` is saved (which runs its persistence hook). */
    method RegistrarEmprestimo(e: Emprestimo, agora: Day)
      requires Valid()
      requires e !in emprestimos && BuscarEmprestimo(e.idEmprestimo).None?
      requires e.exemplar in exemplares && e.idUsuario in usuarios && e.dataPrevistaDevolucao.Some?
      requires forall m :: m in multas ==> m.emprestimo != Some(e)
      modifies this, e, e.exemplar
      ensures Valid()
      ensures emprestimos == old(emprestimos) + [e]
      ensures exemplares == old(exemplares) && usuarios == old(usuarios) && multas == old(multas)
      ensures e.exemplar.disponivel == Some(false)
      ensures e.dataEmprestimo == if old(e.dataEmprestimo).None? then Some(agora) else old(e.dataEmprestimo)
      ensures e.renovacoes == if old(e.renovacoes).None? then Some(0) else old(e.renovacoes)
      ensures e.statusEmprestimo == if old(e.statusEmprestimo).None? then Some(ATIVO) else old(e.statusEmprestimo)
      ensures e.dataPrevistaDevolucao == old(e.dataPrevistaDevolucao) && e.dataDevolucao == old(e.dataDevolucao)
      ensures e.exemplar.estadoConservacao == old(e.exemplar.estadoConservacao)
      ensures e.exemplar.dataCadastro == old(e.exemplar.dataCadastro)
      // the new loan keeps the database consistent when its copy was free and the loan is a fresh open one
      ensures old(Consistent()) && old(e.exemplar.disponivel) == Some(true) && NovoAberto(e) ==> Consistent()
    {
      e.exemplar.disponivel := Some(false);
      e.OnCreate(agora);
      emprestimos := emprestimos + [e];
      if old(Consistent()) && old(e.exemplar.disponivel) == Some(true) && NovoAberto(e) {
        EmprestimoPreservaConsistencia(e);
      }
    }

    /** The writes that both return paths make: the late fine `multa`, when there is one, is saved
        first (running its persistence hook); then loan `e` gets its return date and status
        DEVOLVIDO and its copy is made available again. */
    method RegistrarDevolucao(e: Emprestimo, agora: Day, multa: Option<Multa>)
      requires Valid()
      requires e in emprestimos
      requires multa.Some? ==> multa.value !in multas && BuscarMulta(multa.value.idMulta).None?
      requires multa.Some? ==> multa.value.emprestimo == Some(e) && multa.value.idUsuario == e.idUsuario
      modifies this, e, e.exemplar, if multa.Some? then {multa.value} else {}
      ensures Valid()
      ensures multas == old(multas) + (if multa.Some? then [multa.value] else [])
      ensures exemplares == old(exemplares) && usuarios == old(usuarios) && emprestimos == old(emprestimos)
      ensures e.dataDevolucao == Some(agora) && e.statusEmprestimo == Some(DEVOLVIDO) && e.exemplar.disponivel == Some(true)
      ensures e.dataEmprestimo == old(e.dataEmprestimo) && e.dataPrevistaDevolucao == old(e.dataPrevistaDevolucao)
      ensures e.renovacoes == old(e.renovacoes)
      ensures e.exemplar.estadoConservacao == old(e.exemplar.estadoConservacao)
      ensures e.exemplar.dataCadastro == old(e.exemplar.dataCadastro)
      ensures multa.Some? ==> multa.value.statusMulta == if old(multa.value.statusMulta).None? then Some(PENDENTE) else old(multa.value.statusMulta)
      ensures multa.Some? ==> multa.value.dataMulta == if old(multa.value.dataMulta).None? then Some(agora) else old(multa.value.dataMulta)
      ensures multa.Some? ==> multa.value.dataPagamento == old(multa.value.dataPagamento)
      // returning an open loan keeps the database consistent when the fine saved with it, if any, is its late fine
      ensures old(Consistent()) && old(Aberto(e)) && MultaDaDevolucao(e, agora, multa) ==> Consistent()
    {
      if multa.Some? {
        GuardarMulta(multa.value, agora);
      }
      FecharEmprestimo(e, agora);
      if old(Consistent()) && old(Aberto(e)) && MultaDaDevolucao(e, agora, multa) {
        DevolucaoPreservaConsistencia(e, multa);
      }
    }

    /** Saves loan `e` as returned on day `agora` and its copy as available again. */
    method FecharEmprestimo(e: Emprestimo, agora: Day)
      requires Valid() && e in emprestimos
      modifies e, e.exemplar
      ensures Valid()
      ensures e.dataDevolucao == Some(agora) && e.statusEmprestimo == Some(DEVOLVIDO) && e.exemplar.disponivel == Some(true)
      ensures e.dataEmprestimo == old(e.dataEmprestimo) && e.dataPrevistaDevolucao == old(e.dataPrevistaDevolucao)
      ensures e.renovacoes == old(e.renovacoes)
      ensures e.exemplar.estadoConservacao == old(e.exemplar.estadoConservacao)
      ensures e.exemplar.dataCadastro == old(e.exemplar.dataCadastro)
    {
      e.dataDevolucao := Some(agora);
      e.statusEmprestimo := Some(DEVOLVIDO);
      e.exemplar.disponivel := Some(true);
      assert e.Persistido() && e.exemplar.Persistido();
      assert Persistidos();
    }

    /** Stores a new fine, as `save(multa)` does: its persistence hook runs first. */
    method GuardarMulta(m: Multa, agora: Day)
      requires Valid()
      requires m !in multas && BuscarMulta(m.idMulta).None?
      requires m.idUsuario in usuarios && (m.emprestimo.Some? ==> m.emprestimo.value in emprestimos)
      modifies this, m
      ensures Valid()
      ensures multas == old(multas) + [m]
      ensures exemplares == old(exemplares) && usuarios == old(usuarios) && emprestimos == old(emprestimos)
      ensures m.statusMulta == if old(m.statusMulta).None? then Some(PENDENTE) else old(m.statusMulta)
      ensures m.dataMulta == if old(m.dataMulta).None? then Some(agora) else old(m.dataMulta)
      ensures m.dataPagamento == old(m.dataPagamento)
    {
      m.OnCreate(agora);
      multas := multas + [m];
    }

    /** Saves a new status and payment date for stored fine `m`, as `save` does for an existing row. */
    method AlterarMulta(m: Multa, status: StatusMulta, dataPagamento: Option<Day>)
      requires Valid() && m in multas
      modifies m
      ensures Valid()
      ensures old(Consistent()) ==> Consistent()
      ensures m.statusMulta == Some(status) && m.dataPagamento == dataPagamento && m.dataMulta == old(m.dataMulta)
    {
      m.statusMulta := Some(status);
      m.dataPagamento := dataPagamento;
      assert Persistidos();
    }

    /** `multa`, when present, is the late fine for returning `e` on day `agora`. */
    ghost predicate MultaDaDevolucao(e: Emprestimo, agora: Day, multa: Option<Multa>)
      reads e
    {
      multa.Some? ==>
        && multa.value.tipoMulta == ATRASO
        && e.dataPrevistaDevolucao.Some?
        && Politica.MultaPorAtraso(e.dataPrevistaDevolucao.value, agora) == Some(multa.value.valorMulta)
    }

    /** The writes that both renewal paths make: loan `e` is due `dias` days later and counts one
        more renewal. */
    method RegistrarRenovacao(e: Emprestimo, dias: int)
      requires Valid()
      requires e in emprestimos
      modifies e
      ensures Valid()
      ensures e.dataPrevistaDevolucao == Some(old(e.dataPrevistaDevolucao.value) + dias)
      ensures e.renovacoes == Some(old(e.renovacoes.value) + 1)
      ensures e.statusEmprestimo == old(e.statusEmprestimo) && e.dataEmprestimo == old(e.dataEmprestimo)
      ensures e.dataDevolucao == old(e.dataDevolucao)
      // renewing an open loan below the renewal bound keeps the database consistent
      ensures old(Consistent()) && old(Aberto(e)) && old(e.renovacoes.value) < Politica.MaxRenovacoesServico ==> Consistent()
    {
      e.dataPrevistaDevolucao := Some(e.dataPrevistaDevolucao.value + dias);
      e.renovacoes := Some(e.renovacoes.value + 1);
      if old(Consistent()) && old(Aberto(e)) && old(e.renovacoes.value) < Politica.MaxRenovacoesServico {
        RenovacaoPreservaConsistencia(e);
      }
    }

    /** Returning an open loan, together with saving its late fine if any, keeps the database consistent. */
    twostate lemma DevolucaoPreservaConsistencia(e: Emprestimo, new multa: Option<Multa>)
      requires old(Valid()) && old(Consistent())
      requires e in old(emprestimos) && old(Aberto(e))
      requires emprestimos == old(emprestimos) && exemplares == old(exemplares)
      requires multas == old(multas) + (if multa.Some? then [multa.value] else [])
      requires multa.Some? ==> multa.value !in old(multas) && multa.value.emprestimo == Some(e) && multa.value.idUsuario == e.idUsuario
      requires e.dataDevolucao.Some? && e.statusEmprestimo == Some(DEVOLVIDO) && e.exemplar.disponivel == Some(true)
      requires e.dataPrevistaDevolucao == old(e.dataPrevistaDevolucao) && e.renovacoes == old(e.renovacoes)
      requires MultaDaDevolucao(e, e.dataDevolucao.value, multa)
      requires forall c :: c in exemplares && c != e.exemplar ==> c.disponivel == old(c.disponivel)
      requires forall x :: x in emprestimos && x != e ==> unchanged(x)
      ensures Consistent()
    {
      forall c | c in exemplares
        ensures c.disponivel == Some(false) <==> Emprestado(c)
      {
        if c != e.exemplar {
          if Emprestado(c) {
            var x :| x in emprestimos && x.exemplar == c && Aberto(x);
            assert old(Aberto(x));
          }
          if old(Emprestado(c)) {
            var x :| x in old(emprestimos) && x.exemplar == c && old(Aberto(x));
            assert Emprestado(c);
          }
        }
      }
      assert DisponibilidadeCoerente();
      forall e1, e2 | e1 in emprestimos && e2 in emprestimos && Aberto(e1) && Aberto(e2) && e1.exemplar == e2.exemplar
        ensures e1 == e2
      {
        assert old(Aberto(e1)) && old(Aberto(e2));
      }
      assert UmEmprestimoPorExemplar();
      assert EmprestimosCoerentes();
      forall m | m in multas && m.tipoMulta == ATRASO
        ensures MultaJustificada(m)
      {
        if m in old(multas) {
          assert old(MultaJustificada(m));
          assert m.emprestimo != Some(e);
        }
      }
      assert MultasCoerentes();
    }

    /** Renewing an open loan below the renewal bound keeps the database consistent. */
    twostate lemma RenovacaoPreservaConsistencia(e: Emprestimo)
      requires old(Valid()) && old(Consistent())
      requires e in old(emprestimos) && old(Aberto(e)) && old(e.renovacoes.value) < Politica.MaxRenovacoesServico
      requires emprestimos == old(emprestimos) && exemplares == old(exemplares) && multas == old(multas)
      requires e.statusEmprestimo == old(e.statusEmprestimo) && e.dataDevolucao == old(e.dataDevolucao)
      requires e.renovacoes == Some(old(e.renovacoes.value) + 1)
      requires forall c :: c in exemplares ==> unchanged(c)
      requires forall x :: x in emprestimos && x != e ==> unchanged(x)
      ensures Consistent()
    {
      forall c | c in exemplares
        ensures Emprestado(c) == old(Emprestado(c))
      {
        if Emprestado(c) {
          var x :| x in emprestimos && x.exemplar == c && Aberto(x);
          assert old(Aberto(x));
        }
        if old(Emprestado(c)) {
          var x :| x in old(emprestimos) && x.exemplar == c && old(Aberto(x));
          assert Aberto(x);
        }
      }
      assert DisponibilidadeCoerente();
      forall e1, e2 | e1 in emprestimos && e2 in emprestimos && Aberto(e1) && Aberto(e2) && e1.exemplar == e2.exemplar
        ensures e1 == e2
      {
        assert old(Aberto(e1)) && old(Aberto(e2));
      }
      assert UmEmprestimoPorExemplar();
      forall m | m in multas && m.tipoMulta == ATRASO
        ensures MultaJustificada(m)
      {
        assert old(MultaJustificada(m));
        assert m.emprestimo != Some(e);
      }
      assert MultasCoerentes();
    }

    /** Adding a new available copy that no loan refers to keeps the database consistent. */
    twostate lemma ExemplarPreservaConsistencia(new c: Exemplar)
      requires old(Valid()) && old(Consistent())
      requires exemplares == old(exemplares) + [c] && c !in old(exemplares)
      requires emprestimos == old(emprestimos) && multas == old(multas)
      requires c.disponivel == Some(true)
      requires forall d :: d in old(exemplares) ==> unchanged(d)
      requires forall x :: x in old(emprestimos) ==> unchanged(x)
      ensures Consistent()
    {
      assert !Emprestado(c);
      forall d | d in old(exemplares)
        ensures Emprestado(d) == old(Emprestado(d))
      {
      }
    }

    /** A loan that can be added as a new open loan: no return date, not returned, and a renewal
        count within the bound. */
    ghost predicate NovoAberto(e: Emprestimo)
      reads e
    {
      e.dataDevolucao.None? && Aberto(e) && e.renovacoes.Some? && 0 <= e.renovacoes.value <= Politica.MaxRenovacoesServico
    }

    /** Adding an open loan on a free copy, and marking that copy unavailable, keeps the database consistent. */
    twostate lemma EmprestimoPreservaConsistencia(e: Emprestimo)
      requires old(Valid()) && old(Consistent())
      requires emprestimos == old(emprestimos) + [e] && e !in old(emprestimos)
      requires exemplares == old(exemplares) && multas == old(multas)
      requires e.exemplar in exemplares
      requires old(e.exemplar.disponivel) == Some(true) && e.exemplar.disponivel == Some(false)
      requires forall c :: c in exemplares && c != e.exemplar ==> c.disponivel == old(c.disponivel)
      requires forall x :: x in old(emprestimos) ==> unchanged(x)
      requires forall m :: m in multas ==> m.emprestimo != Some(e)
      requires NovoAberto(e)
      ensures Consistent()
    {
      forall c | c in exemplares
        ensures c.disponivel == Some(false) <==> Emprestado(c)
      {
        if c != e.exemplar {
          if Emprestado(c) {
            var x :| x in emprestimos && x.exemplar == c && Aberto(x);
            assert x in old(emprestimos);
            assert old(Emprestado(c));
          }
          if old(Emprestado(c)) {
            var x :| x in old(emprestimos) && x.exemplar == c && old(Aberto(x));
            assert Emprestado(c);
          }
        }
      }
      assert DisponibilidadeCoerente();
      forall e1, e2 | e1 in emprestimos && e2 in emprestimos && Aberto(e1) && Aberto(e2) && e1.exemplar == e2.exemplar
        ensures e1 == e2
      {
        if e1 != e && e2 != e {
          assert old(Aberto(e1)) && old(Aberto(e2));
        } else if e1 != e || e2 != e {
          assert false;
        }
      }
      assert UmEmprestimoPorExemplar();
      assert EmprestimosCoerentes();
      forall m | m in multas && m.tipoMulta == ATRASO
        ensures MultaJustificada(m)
      {
        assert old(MultaJustificada(m));
      }
      assert MultasCoerentes();
    }
  }
}
