# Voto Seguro 2026: ballot validator and roster assembly, in Dafny

This project models the core of the Voto Seguro 2026 ballot simulator for
Peru's 2026 general election:

- **the ballot validator** (`cedula-logic.ts`). Each column carries a
  per-office limit on preference numbers. The column rule nulls a column for a
  repeated number, for too many numbers, or for a non-positive number, checked
  in that order. The whole-ballot classification is blank, valid or null. It
  keeps nullity partial: a null column makes the ballot null but leaves every
  other column's own verdict as it was.
- **the ballot-state reducers of the `useCedula` hook**: select or clear the
  presidential ticket, select or clear a list in a column, toggle a preference
  number, reset, validate, and the change counter. The hook's state is a plain
  value and each callback is a step on it.
- **the roster assembly** (`candidatos-service.ts`). Raw rows of the
  electoral authority's feed are filtered to the 2026 process and to
  candidates not excluded. They are split into the five offices, with the
  regional offices scoped by a department name compared after upper-casing and
  accent stripping. Rows are grouped by organization, sorted by position, and
  turned into electoral lists whose number is the position of the official
  ballot draw. Organizations outside the draw get 999. The lists are then
  sorted by that number. Presidential tickets also pick president and vice
  presidents by candidate number.
- **the election countdown** (`calcularTiempoRestante`). The clock reading is
  a parameter.

Modules:

- `Wrappers` holds `Option`.
- `Seqs` holds `filter`, first-appearance de-duplication (the key order of a
  JavaScript `Map`), and a stable insertion sort with its permutation and
  stability facts.
- `Text` holds JavaScript's `\s`, `trim`, `replace(/\s+/g, " ")`,
  `split(/\s+/)`, `toUpperCase`, `toLowerCase` and `normalize("NFD")`, as
  explicit character tables.
- `Types`, `CedulaLogic`, `CedulaLogicProperties`, `UseCedula`,
  `CandidatosService` and `Countdown` follow the source files.

The motive strings of the validator are modelled as a datatype (`Motivo`,
`MotivoCedula`). The summary strings are modelled as the structured lists of
column names they enumerate (`Resumen`).

Where the design description and the code disagree, the model follows the
code:

- The design says roster order depends only on ballot positions, never on
  input row order. JavaScript's sort is stable, so lists sharing a number keep
  their order of first appearance in the feed. This is proved in
  `AgruparEnListasEstable`, and in `FormulasPresidencialesEstable` for tickets.
  Organizations outside the draw all share 999, so this case does arise.
- The design says the regional buckets are empty when no region is supplied.
  The code also empties them when the supplied department normalizes to the
  empty string, because it tests `depNorm` for truthiness (`Region`).
- A row whose ubigeo is missing is not national, so it falls into the regional
  senate bucket of its department.

## Model

| member | source | states |
|---|---|---|
| CedulaLogic.ConfigColumnasCoincide | src/lib/cedula-logic.ts:19-63 | the limits table and the column configuration agree: five columns, one per office, in ballot order, each with the limit of `MAX_PREFERENCIALES`; the ticket admits 0 numbers and every other column at least 1 |
| CedulaLogic.ValidarColumna | src/lib/cedula-logic.ts:67-101 | no numbers is valid whatever the limit; otherwise the first failing check wins, in source order: a repeat, then more numbers than the limit (citing count and limit), then a number ≤ 0; null exactly when a motive is given |
| CedulaLogic.ValidarCedula | src/lib/cedula-logic.ts:105-199 | blank exactly when nothing, ticket included, is marked; otherwise one entry per marked preference column, judged on its own selection and limit; null exactly when some entry is null; the motives are one per null column, left to right, each carrying that column's motive; the null summary enumerates the null columns in order; the valid summary enumerates the marked columns in order; the ticket is never judged |
| CedulaLogic.EnBlancoSinMarcas | src/lib/cedula-logic.ts:106-121 | `hayAlgunaMarca` is false exactly when the ticket and all four preference columns are unmarked |
| CedulaLogic.EvaluarColumnasCorrecto | src/lib/cedula-logic.ts:123-148 | the column map has exactly the marked preference columns as keys, each mapped to its own verdict |
| CedulaLogic.MotivosDeEnOrden | src/lib/cedula-logic.ts:126-148 | every pushed motive names a column whose verdict carries that very motive, and the columns named are, in visiting order, exactly the visited columns whose verdict carries one |
| CedulaLogic.MotivosDeCorrectos | src/lib/cedula-logic.ts:124-150 | when a verdict carries a motive exactly when it is null, the motive list enumerates the null columns left to right |
| CedulaLogic.ColumnasNulasCorrectas | src/lib/cedula-logic.ts:171-177 | the null summary lists every null column once, no other column, in ballot order |
| CedulaLogic.ColumnasMarcadasCorrectas | src/lib/cedula-logic.ts:186-192 | the valid summary names, once each and in ballot order, exactly the marked preference columns plus the ticket when its id is non-zero |
| CedulaLogicProperties.IndependenciaDeColumnas | src/lib/cedula-logic.ts:126-148 | two ballots with the same selection in a column get the same verdict for it, whatever else they hold |
| CedulaLogicProperties.NulidadParcial | src/lib/cedula-logic.ts:150-159 | one null column makes the ballot null, another marked valid column still reports valid, and at least one motive is given |
| CedulaLogicProperties.LimiteExacto | src/lib/cedula-logic.ts:84-90 | N distinct positive numbers in a column with limit N are valid; N + 1 are null for exceeding the limit, citing N + 1 and N |
| CedulaLogicProperties.UnaSolaColumna | src/lib/cedula-logic.ts:105-159 | a ballot with one marked preference column has that column's entry alone, takes its status, and when null reports its motive alone |
| CedulaLogicProperties.EscenarioDuplicado | src/lib/cedula-logic.ts:76-82 | ticket plus a national-senate column with one number twice: that column and the ballot are null for a repeat, and the ticket has no entry |
| CedulaLogicProperties.EscenarioExcedeMaximo | src/lib/cedula-logic.ts:84-90 | three distinct deputy numbers against the limit of two: null, citing 3 and 2 |
| CedulaLogicProperties.EscenarioBlanco | src/lib/cedula-logic.ts:113-121 | the empty ballot is blank, with no entries, the blank motive and the blank summary |
| CedulaLogicProperties.EscenarioSoloLista | src/lib/cedula-logic.ts:186-192 | a regional-senate list without numbers is valid, and the summary names that column alone |
| Types.VotoCedula.WithSel | src/hooks/useCedula.ts:68-75 | replacing or deleting one column leaves the ticket and every other column as they were |
| UseCedula.SeleccionarFormula | src/hooks/useCedula.ts:44-52 | picks the ticket, or clears it when that ticket was picked; the columns are untouched |
| UseCedula.SeleccionarFormulaDosVeces | src/hooks/useCedula.ts:44-52 | selecting the same ticket twice restores the ballot exactly when it held no ticket or that one |
| UseCedula.SeleccionarLista | src/hooks/useCedula.ts:64-77 | picking the list already in the column clears it; any other pick holds that list with no numbers; nothing else changes |
| UseCedula.SeleccionarListaDosVeces | src/hooks/useCedula.ts:64-77 | selecting the same list twice restores the ballot exactly when the column was empty or held that list with no numbers |
| UseCedula.Quitar | src/hooks/useCedula.ts:103 | the filtered numbers no longer contain `n`, are no longer, and stay free of repeats |
| UseCedula.QuitarCorrecto | src/hooks/useCedula.ts:97-106 | the filter keeps exactly the other numbers, and shortens the list exactly when `n` was there |
| UseCedula.TogglePreferencial | src/hooks/useCedula.ts:90-118 | without a list nothing happens; a present number is removed (the column becomes exactly the filtered list, every other number kept); a full column ignores a new number; otherwise the number is appended; the list and other columns stay |
| UseCedula.MarcarYDesmarcar | src/hooks/useCedula.ts:95-117 | marking a new number and then unmarking it restores the ballot |
| UseCedula.DesmarcarConservaOrden | src/hooks/useCedula.ts:97-106 | unmarking the number at position i of a repeat-free column leaves the others in their order |
| UseCedula.ToggleConservaColumna | src/hooks/useCedula.ts:90-117 | for any limit passed, a column without repeats holding at most that many numbers keeps both properties after a toggle with that limit |
| UseCedula.ToggleConservaForma | src/hooks/useCedula.ts:108-117 | toggling with a limit no larger than the column's keeps every column repeat-free and within its limit |
| UseCedula.ToggleConservaPositivas | src/hooks/useCedula.ts:90-118 | toggling a positive number keeps every written number positive |
| UseCedula.Resetear | src/hooks/useCedula.ts:125-129 | the reset ballot has nothing marked and validates as blank |
| UseCedula.Paso | src/hooks/useCedula.ts:38-135 | every change bumps the counter by one and clears the shown result; `validar` stores the current ballot's result and changes nothing else |
| UseCedula.PasoConserva | src/hooks/useCedula.ts:42-135 | one callback keeps a shown result equal to the result of the ballot on screen, and keeps columns well formed and numbers positive |
| UseCedula.EjecutarConserva | src/hooks/useCedula.ts:30-135 | over any run of callbacks the state stays coherent, the counter grows by the number of changes, and well-formed, positive ballots stay so |
| UseCedula.BienFormadoSinDuplicadoNiExceso | src/lib/cedula-logic.ts:76-90 | a ballot the reducers can produce never has a column nulled for a repeat or for too many numbers |
| UseCedula.BienFormadoNoNulo | src/lib/cedula-logic.ts:67-101 | a well-formed ballot with positive numbers is never null |
| UseCedula.SimuladorNuncaNulo | src/hooks/useCedula.ts:84-135 | whatever the voter does through the controls, with each toggle passing at most its column's limit and a positive number, validation never reports null |
| CandidatosService.NumeroOnpe | src/lib/candidatos-service.ts:54-93 | every drawn position is in 1..38 and is never 14; any other organization gets 999 |
| CandidatosService.OrganizacionEnPosicion | src/lib/candidatos-service.ts:54-93 | a position holds an organization exactly when it is in 1..38 and is not 14 |
| CandidatosService.OnpeIdaYVuelta | src/lib/candidatos-service.ts:54-93 | an organization has a drawn position exactly when reading that position back yields the organization |
| CandidatosService.OnpeVueltaEIda | src/lib/candidatos-service.ts:54-93 | every drawn position belongs to the organization found by reading it back |
| CandidatosService.OnpeInyectivo | src/lib/candidatos-service.ts:54-93 | no two organizations share a drawn position, and the excluded organization 2968 has none |
| CandidatosService.NormalizarDep | src/lib/candidatos-service.ts:122-127 | the normalized text holds no combining mark |
| CandidatosService.NormalizarDepIdempotente | src/lib/candidatos-service.ts:122-127 | the normalized text is upper case, and normalizing it again changes nothing |
| CandidatosService.NormalizarDepAcento | src/lib/candidatos-service.ts:121-127 | an accented capital followed by plain capitals loses just its accent |
| CandidatosService.NormalizarDepAncash | src/lib/candidatos-service.ts:121 | "ÁNCASH" normalizes to "ANCASH" |
| CandidatosService.BuildFotoUrl | src/lib/candidatos-service.ts:129-134 | no address exactly when the photo id is missing or blank |
| CandidatosService.BuildFotoUrlPartes | src/lib/candidatos-service.ts:129-134 | an address is the base, a slash, the trimmed photo id and the file's extension, "jpeg" exactly when the lower-cased file name ends in ".jpeg"; the id can be read back from it |
| CandidatosService.Significativas | src/lib/candidatos-service.ts:136-143 | every kept word has more than one letter and is not an excluded word |
| CandidatosService.Sigla | src/lib/candidatos-service.ts:138-145 | the initials are the first letters of the first four significant words, and no more |
| CandidatosService.SiglaCorrecta | src/lib/candidatos-service.ts:138-145 | every initial is a visible upper-case character, and a blank name has none |
| CandidatosService.SignificativasCompletas | src/lib/candidatos-service.ts:139-143 | a word is kept exactly when it is a word of the trimmed, upper-cased name longer than one letter and not excluded; it is kept as often as it occurs, and the kept words keep their order |
| CandidatosService.SiglaVacia | src/lib/candidatos-service.ts:138-145 | the initials are empty exactly when every word of the name is a single letter or an excluded word |
| CandidatosService.MapOrganizacion | src/lib/candidatos-service.ts:147-159 | keeps id and number, grey colour; the shown name is the given one when that is non-empty and "Sin nombre" when it is empty; initials from the given name |
| CandidatosService.NombreCompletoForma | src/lib/candidatos-service.ts:175 | the full name has no whitespace at either end, and inside only single spaces |
| CandidatosService.NombreCompletoVisibles | src/lib/candidatos-service.ts:175 | the full name holds exactly the visible characters of the three parts, in order |
| CandidatosService.IdHojaVida | src/lib/candidatos-service.ts:165-168 | never negative; non-zero only for a document number whose trimmed form is all digits |
| CandidatosService.IdHojaVidaDecimal | src/lib/candidatos-service.ts:165-168 | a document number written in decimal is read back as that number |
| CandidatosService.Dni | src/lib/candidatos-service.ts:169 | present exactly when the trimmed document number is non-empty, and then equal to it |
| CandidatosService.MapCandidato | src/lib/candidatos-service.ts:161-184 | the candidate carries the row's office, organization and position (0 when missing), status ("INSCRITO" when missing), department, names, full name, sheet id, document number and photo address |
| Seqs.Dedup | src/lib/candidatos-service.ts:194-203 | the organizations are listed once each, exactly those with a row |
| Seqs.DedupOrden | src/lib/candidatos-service.ts:194-203 | the keys come in order of first appearance: an earlier key occurs in the input before any occurrence of a later one |
| Seqs.FilterSubsecuencia | src/lib/candidatos-service.ts:143 | `filter` keeps the surviving elements in their input order |
| Seqs.SortBy | src/lib/candidatos-service.ts:205-207 | the sort returns a sorted permutation of its input |
| Seqs.SortByStable | src/lib/candidatos-service.ts:205-207 | the sort is stable: the elements sharing a key keep their input order |
| CandidatosService.Organizaciones | src/lib/candidatos-service.ts:194-203 | the grouping keys are distinct, are exactly the organizations that have a row, and come in order of first appearance in the rows |
| CandidatosService.FilasDe | src/lib/candidatos-service.ts:204-207 | an organization's group is sorted by position, a missing position counting as 999 |
| CandidatosService.FilasDeContenido | src/lib/candidatos-service.ts:194-207 | an organization's group holds exactly that organization's rows, each as often as in the input |
| CandidatosService.FilasDeNoVacio | src/lib/candidatos-service.ts:209 | an organization with a row has a non-empty group, so the first row exists |
| CandidatosService.MapCandidatos | src/lib/candidatos-service.ts:213 | one candidate per row of the group, in group order |
| CandidatosService.ConstruirLista | src/lib/candidatos-service.ts:203-215 | the list of an organization carries its id, the office, the number from the map (999 when absent) and no ticket offices; its organization is built from the name of its first row after sorting ("Sin nombre" when missing); its candidates are the organization's rows, sorted, each mapped |
| CandidatosService.ListasSinOrden | src/lib/candidatos-service.ts:201-216 | one list per organization, in order of first appearance |
| CandidatosService.AgruparEnListas | src/lib/candidatos-service.ts:189-221 | the lists are sorted by number and are a permutation of the per-organization lists |
| CandidatosService.AgruparEnListasEstable | src/lib/candidatos-service.ts:218-219 | lists sharing a number stay in order of first appearance |
| CandidatosService.ListasSinOrdenIds | src/lib/candidatos-service.ts:194-216 | the unsorted lists have pairwise different organization ids |
| CandidatosService.AgruparEnListasUnaPorOrganizacion | src/lib/candidatos-service.ts:189-221 | exactly one list per organization with a row, none twice |
| CandidatosService.AgruparEnListasMiembros | src/lib/candidatos-service.ts:203-219 | every returned list is the list built for its own organization, of the requested office |
| CandidatosService.FilaEnSuLista | src/lib/candidatos-service.ts:194-213 | every row of an organization is mapped into that organization's list, and the list has exactly as many candidates as the organization has rows |
| CandidatosService.AgruparEnListasCubre | src/lib/candidatos-service.ts:194-219 | no row is lost: every row is a candidate of its organization's list in the result |
| CandidatosService.CandidatoDeFila | src/lib/candidatos-service.ts:209-213 | every candidate of a list is a row of that organization, mapped |
| CandidatosService.Buscar | src/lib/candidatos-service.ts:298-300 | `find` yields nothing exactly when no candidate has the number, and otherwise the first that has it |
| CandidatosService.ConFormula | src/lib/candidatos-service.ts:293-301 | the ticket keeps the list and fills president, first and second vice president with the first candidates numbered 1, 2 and 3 |
| CandidatosService.FormulasSinOrden | src/lib/candidatos-service.ts:286-302 | one ticket per organization, in order of first appearance |
| CandidatosService.FormulasPresidenciales | src/lib/candidatos-service.ts:279-305 | the tickets are sorted by number and are a permutation of the unsorted tickets |
| CandidatosService.FormulasPresidencialesEstable | src/lib/candidatos-service.ts:302-305 | tickets sharing a number stay in order of first appearance |
| CandidatosService.FormulasSinOrdenIds | src/lib/candidatos-service.ts:279-302 | the unsorted tickets have pairwise different organization ids |
| CandidatosService.FormulasCorrectas | src/lib/candidatos-service.ts:279-305 | one ticket per organization, none twice, each its organization's list with the three offices filled in |
| CandidatosService.Region | src/lib/candidatos-service.ts:253 | a region exists exactly when a department is given and normalizes to a non-empty string, and is that normalization |
| CandidatosService.MapaNumeros | src/lib/candidatos-service.ts:272-276 | the map has exactly the active organizations as keys |
| CandidatosService.NumeroListaCorrecto | src/lib/candidatos-service.ts:272-276 | an active organization's list number is its drawn position, or 999; any other organization gets 999 |
| CandidatosService.GetDatosSimulador | src/lib/candidatos-service.ts:234-314 | without a region the regional-senate and deputy rosters are empty |
| CandidatosService.ActivaSinMayusculas | src/lib/candidatos-service.ts:240-244 | the exclusion filter ignores letter case: a status and its upper case keep or drop a row alike; a row of process 124 without a status, or marked "INSCRITO", is kept |
| CandidatosService.ExcluidoMinusculas | src/lib/candidatos-service.ts:240-244 | a row marked "excluido" is dropped |
| CandidatosService.ExcluidoCapital | src/lib/candidatos-service.ts:240-244 | a row marked "Excluido" is dropped |
| CandidatosService.ExcluidoSinPunto | src/lib/candidatos-service.ts:240-244 | a row marked "EXCLUıDO", with a dotless i, is dropped, because `toUpperCase` turns that letter into I |
| CandidatosService.ParticionCorrecta | src/lib/candidatos-service.ts:240-269 | a row lands in a bucket exactly when it is of process 124, not excluded (its status does not upper-case to "EXCLUIDO"), of that bucket's office, and, for the two regional buckets, a region was given and the row's department normalizes to it |
| CandidatosService.ConstruirListaSana | src/lib/candidatos-service.ts:203-215 | a list built from active rows is of its office, and its candidates are of that office and organization and not excluded |
| CandidatosService.AgruparEnListasSana | src/lib/candidatos-service.ts:189-221 | grouping active rows yields only such lists |
| CandidatosService.FormulasSanas | src/lib/candidatos-service.ts:279-305 | tickets from active rows are sound, and each office holds a candidate of the list with that office's number |
| CandidatosService.GetCandidatosPorCargoSanos | src/lib/candidatos-service.ts:332-351 | whatever the feed and department, every list shown for an office is of that office and lists no excluded candidate |
| CandidatosService.ConstruirListaOnpe | src/lib/candidatos-service.ts:272-276 | a list built from active rows carries its organization's drawn position |
| CandidatosService.AgruparEnListasOnpe | src/lib/candidatos-service.ts:272-276 | lists grouped from active rows carry their organizations' drawn positions |
| CandidatosService.FormulasOnpe | src/lib/candidatos-service.ts:286-305 | tickets built from active rows carry their organizations' drawn positions |
| CandidatosService.GetCandidatosPorCargoOrdenOnpe | src/lib/candidatos-service.ts:332-351 | every roster is in ballot order, and each list's number is its organization's drawn position (999, hence last, outside the draw) |
| Text.Trim | src/lib/candidatos-service.ts:130 | `trim` returns a slice of its argument that neither starts nor ends with whitespace |
| Text.TrimVisibles | src/lib/candidatos-service.ts:166 | trimming removes whitespace only |
| Text.ColapsarForma | src/lib/candidatos-service.ts:175 | after collapsing, all whitespace is single spaces, no two adjacent |
| Text.ColapsarVisibles | src/lib/candidatos-service.ts:175 | collapsing keeps the visible characters |
| Text.DividirSinEspacios | src/lib/candidatos-service.ts:142 | no piece of the split holds whitespace |
| Text.DividirVisibles | src/lib/candidatos-service.ts:142 | the pieces put back together are the visible characters, in order |
| Text.UnirDividir | src/lib/candidatos-service.ts:142 | the pieces joined with single spaces are the string with each whitespace run collapsed, so pieces split exactly at whitespace runs |
| Text.ColapsarRacha | src/lib/candidatos-service.ts:175 | a whitespace run between two words, of any length and any whitespace characters, becomes exactly one space |
| Text.ColapsarSinEspacios | src/lib/candidatos-service.ts:175 | a string without whitespace is left unchanged |
| Text.MayusculasIdempotente | src/lib/candidatos-service.ts:124 | upper-casing twice is upper-casing once |
| Text.Minusculas | src/lib/candidatos-service.ts:132 | lower-casing maps each character on its own and keeps the length |
| Countdown.CalcularTiempoRestante | src/components/CountdownElecciones.tsx:16-30 | "passed" exactly when the difference is not positive, and then all zero; otherwise days, hours < 24, minutes < 60 and seconds < 60 that cover the difference to within a second below it |
| Countdown.LecturaUnica | src/components/CountdownElecciones.tsx:24-27 | the reading is the only in-range one that covers the difference to the second |
| Countdown.TiempoRestanteHasta | src/components/CountdownElecciones.tsx:16-30 | counted from clock reading `ahora` to 08:00 (UTC-5) on a given day: passed exactly from that instant on, otherwise a reading that reaches it within a second |
| Countdown.TiempoRestanteEscrito | src/components/CountdownElecciones.tsx:6-30 | the countdown as written, to 08:00 (UTC-5) on 13 April 2026 |
| Countdown.TiempoRestanteDesde | src/components/CountdownElecciones.tsx:5-30 | the countdown to 08:00 (UTC-5) on Sunday 12 April 2026, the Sunday the comment's weekday names (the comment's own day number, 13, is a Monday) |
| Countdown.EscritoUnDiaDeMas | src/components/CountdownElecciones.tsx:5-27 | before the Sunday opening, the countdown as written shows one more day than the corrected one, with the same hours, minutes and seconds |
| Countdown.InstanteApertura | src/components/CountdownElecciones.tsx:6 | the opening instant falls on the election day, at 13:00 UTC (08:00 at UTC-5) |
| Countdown.DiaSiguienteEnMes | src/components/CountdownElecciones.tsx:6 | the day count advances by one from each day of a month to the next |
| Countdown.DiaDeLaSemanaSiguiente | src/components/CountdownElecciones.tsx:5 | consecutive days fall on consecutive weekdays |
| Countdown.FechaEscritaEsLunes | src/components/CountdownElecciones.tsx:5-6 | the date written in the code is the day after the Sunday, a Monday |
| Countdown.FechaEleccionEsDomingo | src/components/CountdownElecciones.tsx:5 | the corrected date, 12 April 2026, is a Sunday |

## Findings

| source | as written | input that shows it | evidently intended | confidence | as-written member | corrected member |
|---|---|---|---|---|---|---|
| src/components/CountdownElecciones.tsx:5-6 | `FECHA_ELECCIONES` is 2026-04-13, which the comment calls "Domingo 13 de abril" | 2026-04-13 is a Monday; Peru's general elections are held on a Sunday, and 12 April 2026 is that Sunday | count down to 08:00 (UTC-5) on Sunday 2026-04-12 | medium, not executed | Countdown.FechaEscritaEsLunes | Countdown.FechaEleccionEsDomingo |

`TiempoRestanteEscrito` counts down to the date as written, and `TiempoRestanteDesde` to the corrected date. Until the Sunday opening, the written countdown is one day ahead (`EscritoUnDiaDeMas`).

## Left out

- React rendering, the `useState`/`useCallback` wrapping, the `tiempoInicio` timestamp and the countdown's interval timer: these are UI plumbing. The hook's state is the value `Estado`, and every callback is `Paso`.
- The clock: `new Date()` becomes the parameter `ahora`, and the time difference is the parameter of `CalcularTiempoRestante`.
- The bundled JSON import of `candidatos-eg2026.json`: the rows are a parameter of `GetDatosSimulador` and `GetCandidatosPorCargo`.
- `getDepartamentos`: it sorts with `localeCompare(…, "es")`, whose collation tables are not modelled.
- `getHojaVidaUrl`: a constant string prefix with no logic.
- `REGLAS_VOTO`, `NOMBRE_COLUMNA`, the column titles and descriptions of `CONFIG_COLUMNAS`, and the exact wording of motives and summaries: these are copy text. Motives and summaries are modelled as the structured data they carry.
- `strCargo` of the raw row and the colour field: they are not read by the logic, apart from the fixed colour `"#6B7280"`.
- The `Impugnado` status exists in the type but is never produced.
- CandidatosService.NormalizarDep: `toUpperCase` is modelled on Basic Latin, Latin-1, the dotless i and the long s, and `normalize("NFD")` on Latin-1, which covers Peruvian department names. Other scripts pass through unchanged.
- CandidatosService.Activa: the status is upper-cased with that same table, so letters of other scripts (Greek, Cyrillic) keep their case. None of them upper-cases to a letter of "EXCLUIDO"; the dotless i does, and the table maps it to I.
- CandidatosService.Sigla: it upper-cases with the same table, so the initials of a name in another script (Greek, Cyrillic) are not upper-cased as JavaScript would. Strings are sequences of code points, while JavaScript's `p.length > 1` and `p[0]` count UTF-16 code units. So a one-character word outside the Basic Multilingual Plane counts as a single letter here; JavaScript counts it as two units and takes a lone surrogate as its initial.
- Text.Minusculas: one character maps to one character. JavaScript's full case mapping can lengthen a string (`"İ".toLowerCase()` is two code units). Only the ".jpeg" test of the photo address uses it.
- CandidatosService.IdHojaVida: `parseInt` is modelled as exact; the loss of precision beyond 2^53 is not modelled.
- Text.Trim: JavaScript's `\s` is modelled as ASCII whitespace, no-break space, the Unicode space separators, line and paragraph separators and the byte-order mark, as one explicit set.
- UseCedula.TogglePreferencial: the caller's `maxPrefs` is a parameter; that the simulator passes each column's configured limit is an assumption of `SimuladorNuncaNulo`, not something the hook checks.
- CandidatosService.GetDatosSimulador: it does not state that the national rosters are non-empty for non-empty input; that holds only when the feed has active rows of those offices, which `ParticionCorrecta` states row by row.

Source behaviours modelled as written:

- The valid summary names the ticket only when its id is truthy, so ticket id 0 is not named, although `hayAlgunaMarca` counts it as a mark.
- An organization whose name is null is shown as "Sin nombre" with initials "SN". One whose name is the empty string is also shown as "Sin nombre", but with empty initials.
