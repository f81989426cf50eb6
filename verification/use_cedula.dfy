/**
 * The ballot-state reducers of the `useCedula` hook: selecting the presidential
 * ticket, selecting a list in a column, toggling a preference number, resetting,
 * and validating. The hook's state is modelled as a value and every callback as
 * a step on it.
 */
module UseCedula {
  import opened Wrappers
  import opened Seqs
  import opened Types
  import opened CedulaLogic

  /** Picks the ticket `idLista`, or clears it when that ticket was already picked. */
  function SeleccionarFormula(v: VotoCedula, idLista: int): (w: VotoCedula)
    ensures w.formulaPresidencial == if v.formulaPresidencial == Some(idLista) then None else Some(idLista)
    ensures forall c: Columna :: w.Sel(c) == v.Sel(c)
  {
    if v.formulaPresidencial == Some(idLista) then v.(formulaPresidencial := None)
    else v.(formulaPresidencial := Some(idLista))
  }

  /** Picks list `idLista` in column `col` with no preference numbers, or clears the column when that list was already picked. */
  function SeleccionarLista(v: VotoCedula, col: Columna, idLista: int): (w: VotoCedula)
    ensures v.Sel(col).Some? && v.Sel(col).value.idLista == idLista ==> w.Sel(col).None?
    ensures !(v.Sel(col).Some? && v.Sel(col).value.idLista == idLista) ==>
      w.Sel(col) == Some(SeleccionColumna(idLista, []))
    ensures forall d: Columna | d != col :: w.Sel(d) == v.Sel(d)
    ensures w.formulaPresidencial == v.formulaPresidencial
  {
    var sel := v.Sel(col);
    if sel.Some? && sel.value.idLista == idLista then v.WithSel(col, None)
    else v.WithSel(col, Some(SeleccionColumna(idLista, [])))
  }

  /** The filter predicate `p => p !== n`. */
  function DistintoDe(n: int): int -> bool
  {
    x => x != n
  }

  /** `prefs.filter((p) => p !== n)`. */
  function Quitar(prefs: seq<int>, n: int): (r: seq<int>)
    ensures n !in r
    ensures |r| <= |prefs|
    ensures Distinct(prefs) ==> Distinct(r)
  {
    Filter(prefs, DistintoDe(n))
  }

  /** Removing `n` keeps every other number, and shortens the list exactly when `n` was there. */
  lemma {:induction false} QuitarCorrecto(prefs: seq<int>, n: int)
    ensures forall x :: x in Quitar(prefs, n) <==> x in prefs && x != n
    ensures n in prefs <==> |Quitar(prefs, n)| < |prefs|
  {
    var r := Quitar(prefs, n);
    forall x | x in prefs && x != n ensures x in r {
      FilterCount(prefs, DistintoDe(n), x);
    }
    if n in prefs {
      FilterShortens(prefs, DistintoDe(n), n);
    } else {
      FilterAll(prefs, DistintoDe(n));
    }
  }

  /** Toggles preference number `n` in column `col`: removes it when present, otherwise appends it unless the column already holds `maxPrefs`; without a list in the column nothing happens. */
  function TogglePreferencial(v: VotoCedula, col: Columna, n: int, maxPrefs: int): (w: VotoCedula)
    ensures v.Sel(col).None? ==> w == v
    ensures forall d: Columna | d != col :: w.Sel(d) == v.Sel(d)
    ensures w.formulaPresidencial == v.formulaPresidencial
    ensures v.Sel(col).Some? ==> w.Sel(col).Some? && w.Sel(col).value.idLista == v.Sel(col).value.idLista
    // a present number is taken out, every other mark stays
    ensures v.Sel(col).Some? && n in v.Sel(col).value.preferencias ==>
      forall x :: x in w.Sel(col).value.preferencias <==> x in v.Sel(col).value.preferencias && x != n
    ensures v.Sel(col).Some? && n in v.Sel(col).value.preferencias ==>
      w.Sel(col).value.preferencias == Quitar(v.Sel(col).value.preferencias, n)
    // a full column ignores a new number
    ensures (&& v.Sel(col).Some? && n !in v.Sel(col).value.preferencias
             && |v.Sel(col).value.preferencias| >= maxPrefs) ==> w == v
    // otherwise the number joins at the end, in marking order
    ensures (&& v.Sel(col).Some? && n !in v.Sel(col).value.preferencias
             && |v.Sel(col).value.preferencias| < maxPrefs) ==>
      w.Sel(col).value.preferencias == v.Sel(col).value.preferencias + [n]
  {
    var sel := v.Sel(col);
    if sel.None? then v
    else
      var prefs := sel.value.preferencias;
      QuitarCorrecto(prefs, n);
      if n in prefs then v.WithSel(col, Some(sel.value.(preferencias := Quitar(prefs, n))))
      else if |prefs| >= maxPrefs then v
      else v.WithSel(col, Some(sel.value.(preferencias := prefs + [n])))
  }

  /** `resetear`: back to the empty ballot. */
  function Resetear(): (w: VotoCedula)
    ensures forall c: Columna :: w.Sel(c).None?
    ensures w.formulaPresidencial.None?
    ensures ValidarCedula(w).estado == Blanco
  {
    VotoVacio
  }

  /** Selecting the same ticket twice is a no-op exactly when the ballot held no ticket or that one. */
  lemma {:induction false} SeleccionarFormulaDosVeces(v: VotoCedula, idLista: int)
    ensures SeleccionarFormula(SeleccionarFormula(v, idLista), idLista) == v <==>
      v.formulaPresidencial.None? || v.formulaPresidencial == Some(idLista)
  {
  }

  /** Selecting the same list twice is a no-op exactly when the column was empty or held that list without preference numbers. */
  lemma {:induction false} SeleccionarListaDosVeces(v: VotoCedula, col: Columna, idLista: int)
    ensures SeleccionarLista(SeleccionarLista(v, col, idLista), col, idLista) == v <==>
      v.Sel(col).None? || v.Sel(col) == Some(SeleccionColumna(idLista, []))
  {
    var w := SeleccionarLista(SeleccionarLista(v, col, idLista), col, idLista);
    if w == v {
      assert w.Sel(col) == v.Sel(col);
    }
    if v.Sel(col).None? || v.Sel(col) == Some(SeleccionColumna(idLista, [])) {
      SelExtensional(w, v);
    }
  }

  /** Ballots that agree on the ticket and on every column are equal. */
  lemma {:induction false} SelExtensional(v: VotoCedula, w: VotoCedula)
    requires v.formulaPresidencial == w.formulaPresidencial
    requires forall c: Columna :: v.Sel(c) == w.Sel(c)
    ensures v == w
  {
    assert v.Sel(SenadorNacional) == w.Sel(SenadorNacional);
    assert v.Sel(SenadorRegional) == w.Sel(SenadorRegional);
    assert v.Sel(Diputado) == w.Sel(Diputado);
    assert v.Sel(ParlamentoAndino) == w.Sel(ParlamentoAndino);
  }

  /** Marking a new number and then unmarking it restores the ballot. */
  lemma {:induction false} MarcarYDesmarcar(v: VotoCedula, col: Columna, n: int, maxPrefs: int)
    requires v.Sel(col).Some? && n !in v.Sel(col).value.preferencias
    requires |v.Sel(col).value.preferencias| < maxPrefs
    ensures TogglePreferencial(TogglePreferencial(v, col, n, maxPrefs), col, n, maxPrefs) == v
  {
    var prefs := v.Sel(col).value.preferencias;
    var u := TogglePreferencial(v, col, n, maxPrefs);
    var w := TogglePreferencial(u, col, n, maxPrefs);
    assert u.Sel(col).value.preferencias == prefs + [n];
    FilterAppend(prefs, [n], DistintoDe(n));
    FilterAll(prefs, DistintoDe(n));
    assert Filter([n], DistintoDe(n)) == [];
    assert w.Sel(col).value.preferencias == prefs;
    SelExtensional(w, v);
  }

  /** Unmarking the number at position `i` of a repetition-free column leaves the other numbers in their order. */
  lemma {:induction false} DesmarcarConservaOrden(v: VotoCedula, col: Columna, i: nat, maxPrefs: int)
    requires v.Sel(col).Some?
    requires i < |v.Sel(col).value.preferencias| && Distinct(v.Sel(col).value.preferencias)
    ensures var prefs := v.Sel(col).value.preferencias;
      TogglePreferencial(v, col, prefs[i], maxPrefs).Sel(col).value.preferencias == prefs[..i] + prefs[i + 1..]
  {
    var prefs := v.Sel(col).value.preferencias;
    var n := prefs[i];
    forall x | x in prefs && x != n ensures DistintoDe(n)(x) {
    }
    FilterRemovesOne(prefs, i, DistintoDe(n));
  }

  /** A column the reducers can produce: no repeated number and no more than its office admits. */
  ghost predicate ColumnaBienFormada(v: VotoCedula, c: Columna)
  {
    v.Sel(c).Some? ==>
      Distinct(v.Sel(c).value.preferencias) && |v.Sel(c).value.preferencias| <= MaxPreferenciales(c)
  }

  ghost predicate BienFormado(v: VotoCedula)
  {
    forall c: Columna :: ColumnaBienFormada(v, c)
  }

  /** Every preference number written on the ballot is positive. */
  ghost predicate PreferenciasPositivas(v: VotoCedula)
  {
    forall c: Columna | v.Sel(c).Some? :: forall k | 0 <= k < |v.Sel(c).value.preferencias| ::
      v.Sel(c).value.preferencias[k] > 0
  }

  /** A column free of repeats and holding at most `maxPrefs` numbers stays so after a toggle with that same limit. */
  lemma {:induction false} ToggleConservaColumna(v: VotoCedula, col: Columna, n: int, maxPrefs: int)
    requires v.Sel(col).Some?
    requires Distinct(v.Sel(col).value.preferencias) && |v.Sel(col).value.preferencias| <= maxPrefs
    ensures var w := TogglePreferencial(v, col, n, maxPrefs);
      Distinct(w.Sel(col).value.preferencias) && |w.Sel(col).value.preferencias| <= maxPrefs
  {
    var prefs := v.Sel(col).value.preferencias;
    if n !in prefs && |prefs| < maxPrefs {
      forall i, j | 0 <= i < j < |prefs + [n]| ensures (prefs + [n])[i] != (prefs + [n])[j] {
        if j == |prefs| {
          assert (prefs + [n])[i] == prefs[i];
        }
      }
    }
  }

  /** Toggling with a limit no larger than the column's keeps the column free of repeats and within its limit. */
  lemma {:induction false} ToggleConservaForma(v: VotoCedula, col: Columna, n: int, maxPrefs: int)
    requires BienFormado(v) && maxPrefs <= MaxPreferenciales(col)
    ensures BienFormado(TogglePreferencial(v, col, n, maxPrefs))
  {
    var w := TogglePreferencial(v, col, n, maxPrefs);
    forall c: Columna ensures ColumnaBienFormada(w, c) {
      if c == col && v.Sel(col).Some? {
        assert ColumnaBienFormada(v, col);
        var prefs := v.Sel(col).value.preferencias;
        if n !in prefs && |prefs| < maxPrefs {
          ToggleConservaColumna(v, col, n, maxPrefs);
        }
      } else {
        assert ColumnaBienFormada(v, c);
      }
    }
  }

  /** Toggling a positive number keeps every preference number positive. */
  lemma {:induction false} ToggleConservaPositivas(v: VotoCedula, col: Columna, n: int, maxPrefs: int)
    requires PreferenciasPositivas(v) && n > 0
    ensures PreferenciasPositivas(TogglePreferencial(v, col, n, maxPrefs))
  {
    var w := TogglePreferencial(v, col, n, maxPrefs);
    forall c: Columna | w.Sel(c).Some?
      ensures forall k | 0 <= k < |w.Sel(c).value.preferencias| :: w.Sel(c).value.preferencias[k] > 0
    {
      if c == col && v.Sel(col).Some? {
        var prefs := v.Sel(col).value.preferencias;
        assert forall x | x in prefs :: x > 0;
        forall k | 0 <= k < |w.Sel(c).value.preferencias|
          ensures w.Sel(c).value.preferencias[k] > 0
        {
          assert w.Sel(c).value.preferencias[k] in w.Sel(c).value.preferencias;
        }
      }
    }
  }

  /** The user actions of the simulator. `Preferencial` carries the limit the caller passes. */
  datatype Accion =
    | ElegirFormula(idLista: int)
    | ElegirLista(columna: Columna, idLista: int)
    | Preferencial(columna: Columna, numero: int, maxPrefs: int)
    | Reiniciar
    | Validar

  /** The hook's state: the ballot, the result on display, and the change counter. */
  datatype Estado = Estado(voto: VotoCedula, resultado: Option<ResultadoCedula>, cambiosRealizados: nat)

  const EstadoInicial: Estado := Estado(VotoVacio, None, 0)

  /** One callback: every change bumps the counter and clears the shown result; `validar` stores the result of the current ballot. */
  function Paso(e: Estado, a: Accion): (f: Estado)
    ensures a.Validar? ==> f == e.(resultado := Some(ValidarCedula(e.voto)))
    ensures !a.Validar? ==> f.resultado.None? && f.cambiosRealizados == e.cambiosRealizados + 1
  {
    match a
    case ElegirFormula(id) => Estado(SeleccionarFormula(e.voto, id), None, e.cambiosRealizados + 1)
    case ElegirLista(c, id) => Estado(SeleccionarLista(e.voto, c, id), None, e.cambiosRealizados + 1)
    case Preferencial(c, n, m) => Estado(TogglePreferencial(e.voto, c, n, m), None, e.cambiosRealizados + 1)
    case Reiniciar => Estado(Resetear(), None, e.cambiosRealizados + 1)
    case Validar => e.(resultado := Some(ValidarCedula(e.voto)))
  }

  /** Runs a sequence of actions from `e`, first to last. */
  function Ejecutar(e: Estado, acciones: seq<Accion>): Estado
    decreases |acciones|
  {
    if |acciones| == 0 then e else Ejecutar(Paso(e, acciones[0]), acciones[1..])
  }

  /** How many of the actions count as changes (all but `validar`). */
  function Cambios(acciones: seq<Accion>): (n: nat)
    ensures n <= |acciones|
  {
    if |acciones| == 0 then 0 else (if acciones[0].Validar? then 0 else 1) + Cambios(acciones[1..])
  }

  /** Every preference action passes a limit no larger than its column's. */
  ghost predicate LimitesRespetados(acciones: seq<Accion>)
  {
    forall k | 0 <= k < |acciones| :: acciones[k].Preferencial? ==>
      acciones[k].maxPrefs <= MaxPreferenciales(acciones[k].columna)
  }

  /** Every preference action marks a positive number. */
  ghost predicate NumerosPositivos(acciones: seq<Accion>)
  {
    forall k | 0 <= k < |acciones| :: acciones[k].Preferencial? ==> acciones[k].numero > 0
  }

  /** The state the hook keeps: a shown result is always the result of the ballot on screen. */
  ghost predicate Coherente(e: Estado)
  {
    e.resultado.Some? ==> e.resultado.value == ValidarCedula(e.voto)
  }

  lemma {:induction false} PasoConserva(e: Estado, a: Accion)
    requires Coherente(e)
    ensures Coherente(Paso(e, a))
    ensures BienFormado(e.voto) && (a.Preferencial? ==> a.maxPrefs <= MaxPreferenciales(a.columna)) ==>
      BienFormado(Paso(e, a).voto)
    ensures PreferenciasPositivas(e.voto) && (a.Preferencial? ==> a.numero > 0) ==>
      PreferenciasPositivas(Paso(e, a).voto)
  {
    match a
    case ElegirFormula(id) =>
      var w := SeleccionarFormula(e.voto, id);
      assert forall c: Columna :: w.Sel(c) == e.voto.Sel(c);
      if BienFormado(e.voto) {
        forall c: Columna ensures ColumnaBienFormada(w, c) { assert ColumnaBienFormada(e.voto, c); }
      }
    case ElegirLista(col, id) =>
      var w := SeleccionarLista(e.voto, col, id);
      if BienFormado(e.voto) {
        forall c: Columna ensures ColumnaBienFormada(w, c) { assert ColumnaBienFormada(e.voto, c); }
      }
    case Preferencial(col, n, m) =>
      if BienFormado(e.voto) && m <= MaxPreferenciales(col) {
        ToggleConservaForma(e.voto, col, n, m);
      }
      if PreferenciasPositivas(e.voto) && n > 0 {
        ToggleConservaPositivas(e.voto, col, n, m);
      }
    case Reiniciar =>
    case Validar =>
  }

  /** From any coherent state, a run of actions keeps the state coherent, counts its changes, and, when every toggle respects its column's limit, leaves every column repetition-free and within its limit. */
  lemma {:induction false} EjecutarConserva(e: Estado, acciones: seq<Accion>)
    requires Coherente(e)
    ensures Coherente(Ejecutar(e, acciones))
    ensures Ejecutar(e, acciones).cambiosRealizados == e.cambiosRealizados + Cambios(acciones)
    ensures BienFormado(e.voto) && LimitesRespetados(acciones) ==> BienFormado(Ejecutar(e, acciones).voto)
    ensures PreferenciasPositivas(e.voto) && NumerosPositivos(acciones) ==>
      PreferenciasPositivas(Ejecutar(e, acciones).voto)
    decreases |acciones|
  {
    if |acciones| > 0 {
      var a := acciones[0];
      var rest := acciones[1..];
      PasoConserva(e, a);
      EjecutarConserva(Paso(e, a), rest);
      if LimitesRespetados(acciones) {
        assert LimitesRespetados(rest) by {
          forall k | 0 <= k < |rest| ensures rest[k].Preferencial? ==> rest[k].maxPrefs <= MaxPreferenciales(rest[k].columna) {
            assert rest[k] == acciones[k + 1];
          }
        }
        assert a == acciones[0];
      }
      if NumerosPositivos(acciones) {
        assert NumerosPositivos(rest) by {
          forall k | 0 <= k < |rest| ensures rest[k].Preferencial? ==> rest[k].numero > 0 {
            assert rest[k] == acciones[k + 1];
          }
        }
      }
    }
  }

  lemma {:induction false} VacioBienFormado()
    ensures BienFormado(VotoVacio) && PreferenciasPositivas(VotoVacio)
  {
  }

  /** A well-formed ballot never has a column nulled for a repeat or for too many numbers. */
  lemma {:induction false} BienFormadoSinDuplicadoNiExceso(v: VotoCedula)
    requires BienFormado(v)
    ensures forall c: Columna | c in ValidarCedula(v).columnas ::
      ValidarCedula(v).columnas[c].motivo != Some(Duplicado)
      && !(ValidarCedula(v).columnas[c].motivo.Some? && ValidarCedula(v).columnas[c].motivo.value.ExcedeMaximo?)
  {
    forall c: Columna | c in ValidarCedula(v).columnas
      ensures ValidarCedula(v).columnas[c].motivo != Some(Duplicado)
      ensures !(ValidarCedula(v).columnas[c].motivo.Some? && ValidarCedula(v).columnas[c].motivo.value.ExcedeMaximo?)
    {
      assert ColumnaBienFormada(v, c);
    }
  }

  /** A well-formed ballot whose numbers are all positive is never null. */
  lemma {:induction false} BienFormadoNoNulo(v: VotoCedula)
    requires BienFormado(v) && PreferenciasPositivas(v)
    ensures ValidarCedula(v).estado != Nulo
  {
    var r := ValidarCedula(v);
    forall c: Columna | c in r.columnas ensures r.columnas[c].estado == Valido {
      assert ColumnaBienFormada(v, c);
    }
  }

  /** Whatever the voter does through the simulator's controls (each toggle passing at most its column's limit, every number positive), validation never reports the ballot null. */
  lemma {:induction false} SimuladorNuncaNulo(acciones: seq<Accion>)
    requires LimitesRespetados(acciones) && NumerosPositivos(acciones)
    ensures ValidarCedula(Ejecutar(EstadoInicial, acciones).voto).estado != Nulo
    ensures Coherente(Ejecutar(EstadoInicial, acciones))
  {
    VacioBienFormado();
    EjecutarConserva(EstadoInicial, acciones);
    BienFormadoNoNulo(Ejecutar(EstadoInicial, acciones).voto);
  }
}
