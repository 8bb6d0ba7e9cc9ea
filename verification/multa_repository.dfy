/** The fine queries of `MultaRepository`, as filters, counts and sums over the table in table order. */
module MultaRepository {
  import opened Base
  import opened MultaEntity

  /** The criteria of the repository's derived queries. */
  datatype Consulta =
    | PorUsuario(idUsuario: string)
    | PorStatus(status: StatusMulta)
    | PorUsuarioEStatus(idUsuario: string, status: StatusMulta)

  /** Whether a row satisfies the criterion. */
  predicate Atende(m: Multa, q: Consulta)
    reads m
  {
    match q
    case PorUsuario(u) => m.idUsuario == u
    case PorStatus(s) => m.statusMulta == Some(s)
    case PorUsuarioEStatus(u, s) => m.idUsuario == u && m.statusMulta == Some(s)
  }

  /** The rows of `ms` that satisfy `q`, in their table order. */
  function Selecionar(ms: seq<Multa>, q: Consulta): (r: seq<Multa>)
    reads ms
    ensures |r| <= |ms|
    ensures forall m :: m in r ==> m in ms && Atende(m, q)
    ensures forall m :: m in ms && Atende(m, q) ==> m in r
    // each selected row appears as often as in the table, and a row that fails the criterion not at all
    ensures forall m :: m in ms ==> multiset(r)[m] == if Atende(m, q) then multiset(ms)[m] else 0
  {
    if ms == [] then []
    else
      var cabeca := if Atende(ms[0], q) then [ms[0]] else [];
      var resto := Selecionar(ms[1..], q);
      assert ms == [ms[0]] + ms[1..];
      assert ms[0] !in ms[1..] ==> multiset(resto)[ms[0]] == 0 && multiset(ms[1..])[ms[0]] == 0;
      cabeca + resto
  }

  /** Selecting from two runs of rows selects from each in turn, so the result keeps the table's
      order: together with the one-row case this determines `Selecionar` completely. */
  lemma {:induction false} SelecionarConcat(a: seq<Multa>, b: seq<Multa>, q: Consulta)
    ensures Selecionar(a + b, q) == Selecionar(a, q) + Selecionar(b, q)
  {
    if a == [] {
      assert a + b == b;
    } else {
      assert (a + b)[1..] == a[1..] + b;
      SelecionarConcat(a[1..], b, q);
    }
  }

  /** `findByUsuario_IdUsuario`. */
  function FindByUsuario(ms: seq<Multa>, idUsuario: string): (r: seq<Multa>)
    reads ms
    ensures forall m :: m in r ==> m in ms && m.idUsuario == idUsuario
    ensures forall m :: m in ms && m.idUsuario == idUsuario ==> m in r
  {
    Selecionar(ms, PorUsuario(idUsuario))
  }

  /** `findByStatusMulta`. */
  function FindByStatusMulta(ms: seq<Multa>, s: StatusMulta): (r: seq<Multa>)
    reads ms
    ensures forall m :: m in r ==> m in ms && m.statusMulta == Some(s)
    ensures forall m :: m in ms && m.statusMulta == Some(s) ==> m in r
  {
    Selecionar(ms, PorStatus(s))
  }

  /** `findByUsuario_IdUsuarioAndStatusMulta`. */
  function FindByUsuarioAndStatusMulta(ms: seq<Multa>, idUsuario: string, s: StatusMulta): (r: seq<Multa>)
    reads ms
    ensures forall m :: m in r ==> m in ms && m.idUsuario == idUsuario && m.statusMulta == Some(s)
    ensures forall m :: m in ms && m.idUsuario == idUsuario && m.statusMulta == Some(s) ==> m in r
  {
    Selecionar(ms, PorUsuarioEStatus(idUsuario, s))
  }

  /** The number of rows of `ms` that satisfy `q`, counted one row at a time. */
  function Contar(ms: seq<Multa>, q: Consulta): (n: nat)
    reads ms
    ensures n <= |ms|
    ensures n == 0 <==> forall m :: m in ms ==> !Atende(m, q)
  {
    if ms == [] then 0
    else
      var resto := Contar(ms[1..], q);
      if Atende(ms[0], q) then resto + 1 else resto
  }

  /** `countByUsuario_IdUsuarioAndStatusMulta`: a separate derived query that counts rows. */
  function CountByUsuarioAndStatusMulta(ms: seq<Multa>, idUsuario: string, s: StatusMulta): (n: nat)
    reads ms
    ensures n <= |ms|
    ensures n == 0 <==> forall m :: m in ms ==> !(m.idUsuario == idUsuario && m.statusMulta == Some(s))
  {
    Contar(ms, PorUsuarioEStatus(idUsuario, s))
  }

  /** A count query and the matching list query agree: the count is the length of the list. */
  lemma {:induction false} CountIgualTamanho(ms: seq<Multa>, q: Consulta)
    ensures Contar(ms, q) == |Selecionar(ms, q)|
  {
    if ms != [] {
      CountIgualTamanho(ms[1..], q);
    }
  }

  /** `SUM(m.valorMulta)` over a list of rows (and the `reduce(ZERO, add)` of a stream). */
  function Soma(ms: seq<Multa>): (t: int)
  {
    if ms == [] then 0 else ms[0].valorMulta + Soma(ms[1..])
  }

  /** The sum of a concatenation is the sum of the parts. */
  lemma {:induction false} SomaConcat(a: seq<Multa>, b: seq<Multa>)
    ensures Soma(a + b) == Soma(a) + Soma(b)
  {
    if a != [] {
      assert (a + b)[1..] == a[1..] + b;
      SomaConcat(a[1..], b);
    } else {
      assert a + b == b;
    }
  }

  /** No row appears twice in `ms`. */
  predicate SemRepeticao(ms: seq<Multa>)
  {
    forall i, j :: 0 <= i < j < |ms| ==> ms[i] != ms[j]
  }

  /** The total of the rows `ms` that satisfy `q`, added up one row at a time. */
  function TotalSelecionado(ms: seq<Multa>, q: Consulta): (t: int)
    reads ms
  {
    if ms == [] then 0
    else Peso(Atende(ms[0], q), ms[0].valorMulta) + TotalSelecionado(ms[1..], q)
  }

  /** The running total is the `SUM` over the query's result. */
  lemma {:induction false} TotalIgualSoma(ms: seq<Multa>, q: Consulta)
    ensures TotalSelecionado(ms, q) == Soma(Selecionar(ms, q))
  {
    if ms != [] {
      var cabeca := if Atende(ms[0], q) then [ms[0]] else [];
      assert Selecionar(ms, q) == cabeca + Selecionar(ms[1..], q);
      TotalIgualSoma(ms[1..], q);
      SomaConcat(cabeca, Selecionar(ms[1..], q));
    }
  }

  /** The number of rows a query selects moves only by what one changed row `m` contributes:
      it leaves the result if it stops satisfying the criterion, enters it if it starts to. */
  twostate lemma {:induction false} ContagemAposMudanca(new ms: seq<Multa>, new m: Multa, q: Consulta)
    requires old(allocated(ms)) && old(allocated(m))
    requires SemRepeticao(ms)
    requires forall x :: x in ms && x != m ==> unchanged(x)
    ensures Contar(ms, q) == old(Contar(ms, q)) + if m in ms then Peso(Atende(m, q), 1) - Peso(old(Atende(m, q)), 1) else 0
  {
    if ms != [] {
      assert forall x :: x in ms[1..] ==> x in ms;
      UnicoNaCauda(ms);
      ContagemAposMudanca(ms[1..], m, q);
      if ms[0] != m {
        // the head is untouched, so it counts the same before and after
        assert ms[0] in ms && unchanged(ms[0]);
        assert Atende(ms[0], q) == old(Atende(ms[0], q));
        assert m in ms <==> m in ms[1..];
      }
    }
  }

  /** The same for the total of the selected rows. */
  twostate lemma {:induction false} TotalAposMudanca(new ms: seq<Multa>, new m: Multa, q: Consulta)
    requires old(allocated(ms)) && old(allocated(m))
    requires SemRepeticao(ms)
    requires forall x :: x in ms && x != m ==> unchanged(x)
    ensures TotalSelecionado(ms, q) == old(TotalSelecionado(ms, q)) + if m in ms then Peso(Atende(m, q), m.valorMulta) - Peso(old(Atende(m, q)), m.valorMulta) else 0
  {
    if ms != [] {
      assert forall x :: x in ms[1..] ==> x in ms;
      UnicoNaCauda(ms);
      TotalAposMudanca(ms[1..], m, q);
      assert TotalSelecionado(ms, q) == Peso(Atende(ms[0], q), ms[0].valorMulta) + TotalSelecionado(ms[1..], q);
      assert old(TotalSelecionado(ms, q)) == Peso(old(Atende(ms[0], q)), ms[0].valorMulta) + old(TotalSelecionado(ms[1..], q));
      if ms[0] != m {
        // the head is untouched, so it contributes the same before and after
        assert ms[0] in ms && unchanged(ms[0]);
        assert Atende(ms[0], q) == old(Atende(ms[0], q));
        assert m in ms <==> m in ms[1..];
      }
    }
  }

  /** In a sequence without repetition the head does not occur again, and the tail has no repetition. */
  lemma UnicoNaCauda(ms: seq<Multa>)
    requires ms != [] && SemRepeticao(ms)
    ensures ms[0] !in ms[1..] && SemRepeticao(ms[1..])
  {
    forall k | 0 <= k < |ms[1..]|
      ensures ms[1..][k] != ms[0]
    {
      assert ms[1..][k] == ms[k + 1];
    }
  }

  /** `v` when `b` holds, else 0. */
  function Peso(b: bool, v: int): (p: int)
  {
    if b then v else 0
  }

  /** `calcularTotalMultasPendentes(idUsuario)`: `SUM` over the user's `PENDENTE` fines, which SQL
      makes `NULL` when there is no such fine. */
  function CalcularTotalMultasPendentes(ms: seq<Multa>, idUsuario: string): (t: Option<int>)
    reads ms
    ensures t.None? <==> CountByUsuarioAndStatusMulta(ms, idUsuario, PENDENTE) == 0
    ensures t.Some? ==> t.value == Soma(FindByUsuarioAndStatusMulta(ms, idUsuario, PENDENTE))
  {
    var pendentes := FindByUsuarioAndStatusMulta(ms, idUsuario, PENDENTE);
    CountIgualTamanho(ms, PorUsuarioEStatus(idUsuario, PENDENTE));
    if pendentes == [] then None else Some(Soma(pendentes))
  }
}
