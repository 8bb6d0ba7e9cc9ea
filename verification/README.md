# Biblioteca Imperial — loan circulation, modelled in Dafny

This project models the loan-circulation core of the Biblioteca Imperial library backend (Spring Boot
over MySQL): lending a physical copy (*exemplar*) to a user, returning it, renewing a loan, fining a late
return, and paying or cancelling fines. Two code paths do this, and they disagree:

- `EmprestimoService` checks that the copy exists and is available, that the user exists and is active,
  and that the user has no pending fine. It takes the loan period from the caller, allows three renewals
  and fines a late return at R$ 2,00 per day.
- `EmprestimoController` checks only that the copy and the user exist and that the copy is available. It
  lends for 14 days, renews for 7 days, allows two renewals and never fines.

The model keeps both policies side by side (module `Politica`) and proves that both keep one database
consistent.

## Structure

| file | module | models |
|---|---|---|
| base.dfy | `Base` | `Option`, `Result`, days as integers |
| exemplar.dfy, emprestimo.dfy, multa.dfy | `ExemplarEntity`, `EmprestimoEntity`, `MultaEntity` | the JPA entities as classes with their field defaults and `@PrePersist` hooks |
| politica.dfy | `Politica` | the policy constants of both paths and the late-fine rule |
| persistencia.dfy | `Persistencia` | the tables (`Banco`), `findById`, `save`, the database integrity `Valid` and the circulation invariant `Consistent` |
| emprestimo_repository.dfy, multa_repository.dfy | `EmprestimoRepository`, `MultaRepository` | the derived queries, the overdue `@Query`, the counts and the `SUM` |
| emprestimo_service.dfy | `EmprestimoService` | checkout, return and renewal of the service |
| emprestimo_controller.dfy | `EmprestimoController` | checkout, return and renewal of the controller, with its HTTP responses |
| emprestimo_dto.dfy | `EmprestimoDto` | `EmprestimoDTO.fromEntity` and its late / days-late fields |
| multa_controller.dfy | `MultaController` | paying and cancelling a fine, and the pending count and totals |

Entities whose fields the code changes through setters are classes: `Exemplar`, `Emprestimo` and
`Multa`. Nullable columns are `Option`s. Ids and references that are set once are `const`. The
database `Banco` holds each table as a sequence of objects, and the user directory as a map from user id
to the `ativo` flag. Money is in centavos (`DECIMAL(10,2)`), so a day late costs 200.

`Banco.Valid()` is the integrity of the stored rows. Primary keys are unique and foreign keys resolve,
which MySQL enforces. The columns `disponivel`, `estado_conservacao`, `renovacoes`, `status_emprestimo`
and `status_multa` are nullable in the schema, but they are set on every stored row because the
`@PrePersist` hooks fill them on insert; the loan's due date is a `NOT NULL` column.

`Banco.Consistent()` is what the circulation operations keep:

- a copy is unavailable exactly while a loan that has not been returned holds it;
- at most one such loan holds a copy;
- a loan has a return date exactly when it is `DEVOLVIDO`;
- renewal counts lie in `0..3`;
- every late fine stands for one late return of the user's loan, with the amount the late-fine rule gives;
- no loan is fined twice.

Every operation of both paths requires `Valid()`, ensures `Valid()`, and ensures
`old(Consistent()) ==> Consistent()`.

A loan counts as "not returned" when its status is anything but `DEVOLVIDO`. The service's return
accepts exactly those loans, `CANCELADO` included.

## Model

| member | source | states |
|---|---|---|
| ExemplarEntity.Exemplar.constructor | backend/biblioteca-imperial-backend-COM-CONTAGEM-OBRAS/biblioteca-imperial-backend/src/main/java/br/com/biblioimperial/model/mysql/Exemplar.java:37-40 | a new copy is `BOM` and available |
| ExemplarEntity.Exemplar.OnCreate | backend/biblioteca-imperial-backend-COM-CONTAGEM-OBRAS/biblioteca-imperial-backend/src/main/java/br/com/biblioimperial/model/mysql/Exemplar.java:54-65 | each null column gets its default and supplied values are kept; afterwards the copy counts as persisted |
| EmprestimoEntity.ValueOf | backend/biblioteca-imperial-backend-COM-CONTAGEM-OBRAS/biblioteca-imperial-backend/src/main/java/br/com/biblioimperial/model/mysql/Emprestimo.java:67-71 | a status read back from its stored name has that name |
| EmprestimoEntity.NomeValueOf | backend/biblioteca-imperial-backend-COM-CONTAGEM-OBRAS/biblioteca-imperial-backend/src/main/java/br/com/biblioimperial/model/mysql/Emprestimo.java:67-71 | the stored name of every status reads back as that status |
| EmprestimoEntity.Emprestimo.constructor | backend/biblioteca-imperial-backend-COM-CONTAGEM-OBRAS/biblioteca-imperial-backend/src/main/java/br/com/biblioimperial/model/mysql/Emprestimo.java:44-49 | a new loan defaults to `renovacoes = 0` and status `ATIVO`, with no dates |
| EmprestimoEntity.Emprestimo.OnCreate | backend/biblioteca-imperial-backend-COM-CONTAGEM-OBRAS/biblioteca-imperial-backend/src/main/java/br/com/biblioimperial/model/mysql/Emprestimo.java:54-65 | `dataEmprestimo`, `renovacoes` and status are filled only when null; supplied values and the due and return dates are kept |
| MultaEntity.Multa.constructor | backend/biblioteca-imperial-backend-COM-CONTAGEM-OBRAS/biblioteca-imperial-backend/src/main/java/br/com/biblioimperial/model/mysql/Multa.java:48-50 | a new fine defaults to `PENDENTE`, with no dates |
| MultaEntity.Multa.OnCreate | backend/biblioteca-imperial-backend-COM-CONTAGEM-OBRAS/biblioteca-imperial-backend/src/main/java/br/com/biblioimperial/model/mysql/Multa.java:55-63 | `dataMulta` and status are filled only when null; the payment date is kept |
| Politica.MultaPorAtraso | backend/biblioteca-imperial-backend-COM-CONTAGEM-OBRAS/biblioteca-imperial-backend/src/main/java/br/com/biblioimperial/service/EmprestimoService.java:90-97 | a late fine exists iff the return is after the due date; its amount is a positive multiple of the daily rate, equal to the days late times the rate |
| Politica.MultaMonotona | backend/biblioteca-imperial-backend-COM-CONTAGEM-OBRAS/biblioteca-imperial-backend/src/main/java/br/com/biblioimperial/service/EmprestimoService.java:90-97 | a later return never costs less |
| Persistencia.ProcurarExemplar | backend/biblioteca-imperial-backend-COM-CONTAGEM-OBRAS/biblioteca-imperial-backend/src/main/java/br/com/biblioimperial/service/EmprestimoService.java:39-40 | `findById` finds a copy with the key, or reports that none has it |
| Persistencia.ProcurarEmprestimo | backend/biblioteca-imperial-backend-COM-CONTAGEM-OBRAS/biblioteca-imperial-backend/src/main/java/br/com/biblioimperial/service/EmprestimoService.java:82-83 | `findById` finds a loan with the key, or reports that none has it |
| Persistencia.ProcurarMulta | backend/src/main/java/br/com/biblioimperial/controller/MultaController.java:123 | `findById` finds a fine with the key, or reports that none has it |
| Persistencia.Banco.AbertoSemMulta | backend/biblioteca-imperial-backend-COM-CONTAGEM-OBRAS/biblioteca-imperial-backend/src/main/java/br/com/biblioimperial/service/EmprestimoService.java:85-109 | in a consistent database a loan that has not been returned has no late fine |
| Persistencia.Banco.CadastrarExemplar | backend/biblioteca-imperial-backend-COM-CONTAGEM-OBRAS/biblioteca-imperial-backend/src/main/java/br/com/biblioimperial/model/mysql/Exemplar.java:37-65 | saving a new copy appends it available and `BOM`, dated today, and keeps the database consistent |
| Persistencia.Banco.RegistrarEmprestimo | backend/biblioteca-imperial-backend-COM-CONTAGEM-OBRAS/biblioteca-imperial-backend/src/main/java/br/com/biblioimperial/service/EmprestimoService.java:73-77 | checkout's writes: the copy becomes unavailable and the loan is appended after its hook ran; this is consistent when the copy was free |
| Persistencia.Banco.RegistrarDevolucao | backend/biblioteca-imperial-backend-COM-CONTAGEM-OBRAS/biblioteca-imperial-backend/src/main/java/br/com/biblioimperial/service/EmprestimoService.java:108-120 | return's writes: the optional fine is appended, the loan is `DEVOLVIDO` with today's return date, and its copy is available; this is consistent when the fine is the late-fine rule's |
| Persistencia.Banco.FecharEmprestimo | backend/biblioteca-imperial-backend-COM-CONTAGEM-OBRAS/biblioteca-imperial-backend/src/main/java/br/com/biblioimperial/service/EmprestimoService.java:112-118 | the loan gets today's return date and status `DEVOLVIDO`, its copy becomes available, and their other columns are kept |
| Persistencia.Banco.GuardarMulta | backend/biblioteca-imperial-backend-COM-CONTAGEM-OBRAS/biblioteca-imperial-backend/src/main/java/br/com/biblioimperial/service/EmprestimoService.java:108 | saving a fine runs its hook and appends it |
| Persistencia.Banco.AlterarMulta | backend/src/main/java/br/com/biblioimperial/controller/MultaController.java:124-127 | changing a fine's status and payment date keeps the database valid and consistent |
| Persistencia.Banco.RegistrarRenovacao | backend/biblioteca-imperial-backend-COM-CONTAGEM-OBRAS/biblioteca-imperial-backend/src/main/java/br/com/biblioimperial/service/EmprestimoService.java:136-141 | renewal moves the due date and increments the count, and changes nothing else |
| Persistencia.Banco.DevolucaoPreservaConsistencia | backend/biblioteca-imperial-backend-COM-CONTAGEM-OBRAS/biblioteca-imperial-backend/src/main/java/br/com/biblioimperial/service/EmprestimoService.java:96-120 | closing a loan, freeing its copy and adding at most its late fine keeps every consistency clause |
| Persistencia.Banco.RenovacaoPreservaConsistencia | backend/biblioteca-imperial-backend-COM-CONTAGEM-OBRAS/biblioteca-imperial-backend/src/main/java/br/com/biblioimperial/service/EmprestimoService.java:132-141 | renewing a loan under the limit keeps every consistency clause, including the renewal bound |
| Persistencia.Banco.ExemplarPreservaConsistencia | backend/biblioteca-imperial-backend-COM-CONTAGEM-OBRAS/biblioteca-imperial-backend/src/main/java/br/com/biblioimperial/model/mysql/Exemplar.java:54-65 | a new available copy keeps every consistency clause |
| Persistencia.Banco.EmprestimoPreservaConsistencia | backend/biblioteca-imperial-backend-COM-CONTAGEM-OBRAS/biblioteca-imperial-backend/src/main/java/br/com/biblioimperial/service/EmprestimoService.java:65-77 | a new open loan on a free copy keeps every consistency clause |
| EmprestimoRepository.Selecionar | backend/biblioteca-imperial-backend-COM-CONTAGEM-OBRAS/biblioteca-imperial-backend/src/main/java/br/com/biblioimperial/repository/mysql/EmprestimoRepository.java:18-29 | a derived query returns exactly the loans meeting its criterion, each as many times as it occurs in the table |
| EmprestimoRepository.SelecionarConcat | backend/biblioteca-imperial-backend-COM-CONTAGEM-OBRAS/biblioteca-imperial-backend/src/main/java/br/com/biblioimperial/repository/mysql/EmprestimoRepository.java:18-29 | a query over two runs of rows returns the first run's matches followed by the second's, so results keep table order |
| EmprestimoRepository.FindByUsuario | backend/biblioteca-imperial-backend-COM-CONTAGEM-OBRAS/biblioteca-imperial-backend/src/main/java/br/com/biblioimperial/repository/mysql/EmprestimoRepository.java:18 | exactly the user's loans |
| EmprestimoRepository.FindByStatusEmprestimo | backend/biblioteca-imperial-backend-COM-CONTAGEM-OBRAS/biblioteca-imperial-backend/src/main/java/br/com/biblioimperial/repository/mysql/EmprestimoRepository.java:20 | exactly the loans with the status |
| EmprestimoRepository.FindByUsuarioAndStatusEmprestimo | backend/biblioteca-imperial-backend-COM-CONTAGEM-OBRAS/biblioteca-imperial-backend/src/main/java/br/com/biblioimperial/repository/mysql/EmprestimoRepository.java:22-25 | exactly the user's loans with the status |
| EmprestimoRepository.FindEmprestimosAtrasados | backend/biblioteca-imperial-backend-COM-CONTAGEM-OBRAS/biblioteca-imperial-backend/src/main/java/br/com/biblioimperial/repository/mysql/EmprestimoRepository.java:27-29 | exactly the `ATIVO` loans due strictly before the date; `ATRASADO` loans and loans due on the date are excluded |
| EmprestimoRepository.CountByUsuarioAndStatusEmprestimo | backend/biblioteca-imperial-backend-COM-CONTAGEM-OBRAS/biblioteca-imperial-backend/src/main/java/br/com/biblioimperial/repository/mysql/EmprestimoRepository.java:31-34 | the count is zero iff no loan of the user has the status |
| EmprestimoRepository.CountIgualTamanho | backend/biblioteca-imperial-backend-COM-CONTAGEM-OBRAS/biblioteca-imperial-backend/src/main/java/br/com/biblioimperial/repository/mysql/EmprestimoRepository.java:22-34 | the count query equals the length of the list query |
| MultaRepository.Selecionar | backend/src/main/java/br/com/biblioimperial/repository/mysql/MultaRepository.java:18-25 | a derived query returns exactly the fines meeting its criterion, each as many times as it occurs in the table |
| MultaRepository.SelecionarConcat | backend/src/main/java/br/com/biblioimperial/repository/mysql/MultaRepository.java:18-25 | a query over two runs of rows returns the first run's matches followed by the second's, so results keep table order |
| MultaRepository.FindByUsuario | backend/src/main/java/br/com/biblioimperial/repository/mysql/MultaRepository.java:18 | exactly the user's fines |
| MultaRepository.FindByStatusMulta | backend/src/main/java/br/com/biblioimperial/repository/mysql/MultaRepository.java:20 | exactly the fines with the status |
| MultaRepository.FindByUsuarioAndStatusMulta | backend/src/main/java/br/com/biblioimperial/repository/mysql/MultaRepository.java:22-25 | exactly the user's fines with the status |
| MultaRepository.Contar | backend/src/main/java/br/com/biblioimperial/repository/mysql/MultaRepository.java:31-34 | the number of fines meeting a criterion, counted row by row, is zero iff no fine meets it |
| MultaRepository.CountByUsuarioAndStatusMulta | backend/src/main/java/br/com/biblioimperial/repository/mysql/MultaRepository.java:31-34 | the count is zero iff no fine of the user has the status |
| MultaRepository.CountIgualTamanho | backend/src/main/java/br/com/biblioimperial/repository/mysql/MultaRepository.java:18-34 | for every criterion, the row-by-row count equals the length of the list query |
| MultaRepository.SomaConcat | backend/src/main/java/br/com/biblioimperial/repository/mysql/MultaRepository.java:27-29 | `SUM` over two lists added together is the sum of the two sums |
| MultaRepository.TotalIgualSoma | backend/src/main/java/br/com/biblioimperial/controller/MultaController.java:100-103 | the total of the matching fines, added up row by row, equals the `SUM` over the query's result |
| MultaRepository.ContagemAposMudanca | backend/src/main/java/br/com/biblioimperial/controller/MultaController.java:91 | when one fine changes, a query's result size moves only by whether that fine left or entered it |
| MultaRepository.TotalAposMudanca | backend/src/main/java/br/com/biblioimperial/controller/MultaController.java:100-103 | when one fine changes, a query's total moves only by that fine's amount as it leaves or enters |
| MultaRepository.CalcularTotalMultasPendentes | backend/src/main/java/br/com/biblioimperial/repository/mysql/MultaRepository.java:27-29 | the user's pending `SUM` is null iff the user has no pending fine, and otherwise sums their amounts |
| EmprestimoService.RecusaEmprestimo | backend/biblioteca-imperial-backend-COM-CONTAGEM-OBRAS/biblioteca-imperial-backend/src/main/java/br/com/biblioimperial/service/EmprestimoService.java:39-62 | each error comes back exactly when its check fails and every earlier one passed, in source order: missing copy, unavailable copy, missing user, inactive user, pending fine; no refusal means every check passed |
| EmprestimoService.RealizarEmprestimo | backend/biblioteca-imperial-backend-COM-CONTAGEM-OBRAS/biblioteca-imperial-backend/src/main/java/br/com/biblioimperial/service/EmprestimoService.java:37-78 | refused exactly when a check fails, with that error and nothing changed; otherwise it appends an `ATIVO` loan due `diasEmprestimo` days from today, never renewed, and takes the copy, whose other columns are kept |
| EmprestimoService.Emprestar | backend/biblioteca-imperial-backend-COM-CONTAGEM-OBRAS/biblioteca-imperial-backend/src/main/java/br/com/biblioimperial/service/EmprestimoService.java:64-77 | builds and saves the loan, takes the copy, keeps consistency |
| EmprestimoService.RealizarDevolucao | backend/biblioteca-imperial-backend-COM-CONTAGEM-OBRAS/biblioteca-imperial-backend/src/main/java/br/com/biblioimperial/service/EmprestimoService.java:81-121 | a missing or `DEVOLVIDO` loan is refused with nothing changed; otherwise the loan is `DEVOLVIDO` today and its copy available with its other columns kept; one `PENDENTE` `ATRASO` fine of days late × 2 for the loan's user is appended iff the return is late |
| EmprestimoService.Devolver | backend/biblioteca-imperial-backend-COM-CONTAGEM-OBRAS/biblioteca-imperial-backend/src/main/java/br/com/biblioimperial/service/EmprestimoService.java:89-120 | the fine-then-close part of the return, with the same outcome |
| EmprestimoService.RenovarEmprestimo | backend/biblioteca-imperial-backend-COM-CONTAGEM-OBRAS/biblioteca-imperial-backend/src/main/java/br/com/biblioimperial/service/EmprestimoService.java:124-142 | refused unless the loan exists, is `ATIVO` and has fewer than 3 renewals; otherwise only the due date (+`diasRenovacao`) and the count (+1, at most 3) change |
| EmprestimoService.EmprestimoRepetido | backend/biblioteca-imperial-backend-COM-CONTAGEM-OBRAS/biblioteca-imperial-backend/src/main/java/br/com/biblioimperial/service/EmprestimoService.java:43-75 | after an accepted checkout, a second checkout of the same copy is refused as unavailable |
| EmprestimoService.DevolucaoRepetida | backend/biblioteca-imperial-backend-COM-CONTAGEM-OBRAS/biblioteca-imperial-backend/src/main/java/br/com/biblioimperial/service/EmprestimoService.java:85-109 | after an accepted return, a second return of the same loan is refused; the two together add at most one fine |
| EmprestimoDto.ParaInt | backend/biblioteca-imperial-backend-COM-CONTAGEM-OBRAS/biblioteca-imperial-backend/src/main/java/br/com/biblioimperial/dto/EmprestimoDTO.java:71 | the `(int)` cast keeps the value modulo 2^32, lies in the `int` range and is the identity on it |
| EmprestimoDto.CalcularAtraso | backend/biblioteca-imperial-backend-COM-CONTAGEM-OBRAS/biblioteca-imperial-backend/src/main/java/br/com/biblioimperial/dto/EmprestimoDTO.java:61-78 | late iff not returned, with a due date, and today after it; not late means 0 days; late means today minus due, at least 1 (when it fits in `int`); days ≥ 0 and late iff days > 0 |
| EmprestimoDto.AtrasoTruncado | backend/biblioteca-imperial-backend-COM-CONTAGEM-OBRAS/biblioteca-imperial-backend/src/main/java/br/com/biblioimperial/dto/EmprestimoDTO.java:69-71 | a count of 2^31 days wraps to a negative `diasAtraso` |
| EmprestimoDto.FromEntity | backend/biblioteca-imperial-backend-COM-CONTAGEM-OBRAS/biblioteca-imperial-backend/src/main/java/br/com/biblioimperial/dto/EmprestimoDTO.java:44-81 | ids, dates and renewals are copied; the status is its name or null, and reads back as the loan's status; the late fields are `CalcularAtraso` of the loan |
| EmprestimoDto.AtrasoEMulta | backend/biblioteca-imperial-backend-COM-CONTAGEM-OBRAS/biblioteca-imperial-backend/src/main/java/br/com/biblioimperial/dto/EmprestimoDTO.java:61-78 | an open loan shows as late exactly when a return that day would be fined, and the fine is days late × the daily rate |
| EmprestimoDto.AtrasadosMostramAtraso | backend/biblioteca-imperial-backend-COM-CONTAGEM-OBRAS/biblioteca-imperial-backend/src/main/java/br/com/biblioimperial/repository/mysql/EmprestimoRepository.java:27-29 | in a consistent database every loan in the overdue list shows as late, and every `ATIVO` loan that shows as late is in the list |
| EmprestimoController.RecusaEmprestimo | backend/src/main/java/br/com/biblioimperial/controller/EmprestimoController.java:138-148 | each refusal comes back exactly when its check fails and the earlier ones passed: missing copy (500), unavailable copy (400), missing user (500); there is no other refusal, and no refusal iff the copy exists, is available and the user exists |
| EmprestimoController.RealizarEmprestimo | backend/src/main/java/br/com/biblioimperial/controller/EmprestimoController.java:132-173 | refused exactly when a check fails, with nothing changed; otherwise it appends an `ATIVO` loan due in 14 days with 0 renewals, takes the copy (its other columns kept) and answers with its view |
| EmprestimoController.Emprestar | backend/src/main/java/br/com/biblioimperial/controller/EmprestimoController.java:150-165 | builds and saves the 14-day loan, takes the copy with its other columns kept, keeps consistency |
| EmprestimoController.Devolver | backend/src/main/java/br/com/biblioimperial/controller/EmprestimoController.java:179-207 | a missing loan is a 500 and a loan that is not `ATIVO` a 400, with nothing changed; otherwise the loan is `DEVOLVIDO` today, its copy available with its other columns kept, and no fine is created |
| EmprestimoController.Renovar | backend/src/main/java/br/com/biblioimperial/controller/EmprestimoController.java:213-242 | refused unless the loan exists, is `ATIVO` and has fewer than 2 renewals; otherwise only the due date (+7) and the count (+1, at most 2) change |
| EmprestimoController.ServicoMaisRestritivo | backend/src/main/java/br/com/biblioimperial/controller/EmprestimoController.java:133-165 | every request the controller refuses the service refuses for the same reason; the service additionally refuses only inactive users and users with pending fines |
| MultaController.ContarPendentes | backend/src/main/java/br/com/biblioimperial/controller/MultaController.java:90-93 | the size of the pending list equals the number of `PENDENTE` fines counted row by row, and is zero iff none is pending |
| MultaController.CalcularTotalGeralPendentes | backend/src/main/java/br/com/biblioimperial/controller/MultaController.java:99-105 | the global pending total is the sum over the `PENDENTE` fines, and zero when there are none |
| MultaController.CalcularTotalPendentes | backend/src/main/java/br/com/biblioimperial/controller/MultaController.java:65-71 | the user's pending total is the sum over their `PENDENTE` fines, with the null sum read as zero; it equals their row-by-row pending total |
| MultaController.PagarMulta | backend/src/main/java/br/com/biblioimperial/controller/MultaController.java:122-131 | an unknown id changes nothing; otherwise the fine is `PAGA` with today's payment date whatever its previous status, and the pending count and totals drop by it if it was pending |
| MultaController.CancelarMulta | backend/src/main/java/br/com/biblioimperial/controller/MultaController.java:137-145 | an unknown id changes nothing; otherwise the fine is `CANCELADA` with its payment date kept whatever its previous status, and the pending count and totals drop by it if it was pending |
| MultaController.Totais | backend/src/main/java/br/com/biblioimperial/controller/MultaController.java:122-145 | moving one fine out of `PENDENTE` lowers the pending count by one and the global and user totals by its amount |

## Left out

- Clocks: `LocalDate.now()` and `LocalDateTime.now()` are the parameters `hoje` and `agora`. Timestamps are kept as days, so the time of day of checkout, return and payment is not modelled.
- Id generation (`gerarIdEmprestimo`, `gerarIdMulta`, the random `EMP-` ids) is replaced by caller-supplied fresh ids. A colliding id is excluded by a precondition.
- `@Transactional`, concurrency and row locking are not modelled. Each operation runs alone and all its writes take effect together.
- Exceptions in the service are `Result.Failure` with one `Erro` per message.
- Null pointers from a row whose circulation columns are null (a copy without `disponivel`, a loan without `renovacoes`) are ruled out by `Banco.Valid()`, because the hooks fill those columns on insert. They are not modelled as failures.
- `Banco.Consistent()` is kept only by the circulation operations modelled here. The copy endpoints of `ExemplarController` save a request body as it arrives, so they can store or overwrite `disponivel` arbitrarily, for example on a copy that is out on loan. They are not modelled, and `Banco.CadastrarExemplar` models only a copy saved with its defaults.
- A request body missing `idExemplar` or `idUsuario` is not modelled.
- Work, barcode, user names, `observacoes`, `descricao`, acquisition data and `MultaDTO` are not modelled. They carry no circulation logic.
- Amounts: the service computes `diasAtraso * 2.00` as a `double` and converts it to `BigDecimal`. The model uses exact centavos. The two agree for every day count below 2^53.
- The controllers' list, count and `buscarPorId` endpoints, and the service's listing methods, are plain pass-throughs to the repository queries above. They are not modelled separately.
- EmprestimoDto.CalcularAtraso: the facts "days late = today − due date ≥ 1" and "atrasado iff diasAtraso > 0" are stated only when the count fits in an `int`. `AtrasoTruncado` shows the `(int)` cast wrapping beyond that.
- Persistencia.Banco.RegistrarEmprestimo: consistency is promised only when the copy was free and the loan is a new open one. Both callers establish this through their checks.
- Four behaviours of the code are kept as written:
  - the service's return checks only for `DEVOLVIDO`, so a `CANCELADO` loan can be returned;
  - renewal accepts only `ATIVO` loans, not `ATRASADO` ones;
  - paying and cancelling a fine do not look at its previous status;
  - nothing sets `ATRASADO`: overdue loans are only listed by the overdue query.
