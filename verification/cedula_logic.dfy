/**
 * The ballot validator of `cedula-logic.ts`: the per-office preference limits,
 * the per-column preference rule and the whole-ballot classification.
 */
module CedulaLogic {
  import opened Wrappers
  import opened Seqs
  import opened Types

  /** `MAX_PREFERENCIALES`: how many preference numbers each column admits. */
  function MaxPreferenciales(t: TipoCargo): int
  {
    match t
    case FormulaPresidencial => 0
    case SenadorNacional => 2
    case SenadorRegional => 1
    case Diputado => 2
    case ParlamentoAndino => 2
  }

  /** `CONFIG_COLUMNAS`, reduced to the office and its preference limit, left to right on the ballot. */
  const ConfigColumnas: seq<ConfigColumna> := [
    ConfigColumna(FormulaPresidencial, 0),
    ConfigColumna(SenadorNacional, 2),
    ConfigColumna(SenadorRegional, 1),
    ConfigColumna(Diputado, 2),
    ConfigColumna(ParlamentoAndino, 2)
  ]

  /** Left-to-right position of an office's column on the ballot. */
  function Rango(t: TipoCargo): int
  {
    match t
    case FormulaPresidencial => 0
    case SenadorNacional => 1
    case SenadorRegional => 2
    case Diputado => 3
    case ParlamentoAndino => 4
  }

  function RangoColumna(c: Columna): int
  {
    Rango(c)
  }

  /** The two configuration tables agree: each office has exactly one entry, with the limit `MaxPreferenciales` gives it. */
  lemma {:induction false} ConfigColumnasCoincide()
    ensures |ConfigColumnas| == 5
    ensures forall i | 0 <= i < |ConfigColumnas| ::
      ConfigColumnas[i].maxPreferenciales == MaxPreferenciales(ConfigColumnas[i].tipo)
    ensures forall t: TipoCargo :: 0 <= Rango(t) < |ConfigColumnas| && ConfigColumnas[Rango(t)].tipo == t
    ensures forall i, j | 0 <= i < j < |ConfigColumnas| :: ConfigColumnas[i].tipo != ConfigColumnas[j].tipo
    ensures forall i | 0 <= i < |ConfigColumnas| :: Rango(ConfigColumnas[i].tipo) == i
    ensures MaxPreferenciales(FormulaPresidencial) == 0
    ensures forall c: Columna :: MaxPreferenciales(c) >= 1
  {
  }

  /** `new Set(p).size !== p.length`, the duplicate test of the source. */
  predicate TieneRepetidos(p: seq<int>)
  {
    |Elements(p)| != |p|
  }

  /** `validarColumna`: the preference rule of one column, checks in source order, first match reported. */
  function ValidarColumna(sel: SeleccionColumna, maxPrefs: int): (r: ResultadoColumna)
    ensures r.estado == Valido || r.estado == Nulo
    ensures r.estado == Nulo <==> r.motivo.Some?
    // preference marks are optional, whatever the limit
    ensures |sel.preferencias| == 0 ==> r == ResultadoColumna(Valido, None)
    // a repeated number wins over every other defect
    ensures |sel.preferencias| > 0 && !Distinct(sel.preferencias) ==>
      r == ResultadoColumna(Nulo, Some(Duplicado))
    ensures 0 < |sel.preferencias| && Distinct(sel.preferencias) && |sel.preferencias| > maxPrefs ==>
      r == ResultadoColumna(Nulo, Some(ExcedeMaximo(|sel.preferencias|, maxPrefs)))
    ensures (&& Distinct(sel.preferencias) && |sel.preferencias| <= maxPrefs
             && exists k | 0 <= k < |sel.preferencias| :: sel.preferencias[k] <= 0) ==>
      r == ResultadoColumna(Nulo, Some(NumeroInvalido))
    ensures (&& Distinct(sel.preferencias) && |sel.preferencias| <= maxPrefs
             && forall k | 0 <= k < |sel.preferencias| :: sel.preferencias[k] > 0) ==>
      r == ResultadoColumna(Valido, None)
  {
    var p := sel.preferencias;
    ElementsCardinality(p);
    if |p| == 0 then ResultadoColumna(Valido, None)
    else if TieneRepetidos(p) then ResultadoColumna(Nulo, Some(Duplicado))
    else if |p| > maxPrefs then ResultadoColumna(Nulo, Some(ExcedeMaximo(|p|, maxPrefs)))
    else if exists k | 0 <= k < |p| :: p[k] <= 0 then ResultadoColumna(Nulo, Some(NumeroInvalido))
    else ResultadoColumna(Valido, None)
  }

  /** `hayAlgunaMarca`: some column, the presidential ticket included, holds a selection. */
  predicate HayAlgunaMarca(v: VotoCedula)
  {
    v.formulaPresidencial.Some? || v.senadorNacional.Some? || v.senadorRegional.Some?
    || v.diputado.Some? || v.parlamentoAndino.Some?
  }

  /** The ballot is blank: neither the ticket nor any preference column is marked. */
  ghost predicate EnBlanco(v: VotoCedula)
  {
    v.formulaPresidencial.None? && forall c: Columna :: v.Sel(c).None?
  }

  /** `cs` lists exactly the offices of `s`, each once, left to right. */
  ghost predicate EnumeraEnOrden(cs: seq<TipoCargo>, s: set<TipoCargo>)
  {
    && (forall k | 0 <= k < |cs| :: cs[k] in s)
    && (forall t | t in s :: t in cs)
    && (forall j, k | 0 <= j < k < |cs| :: Rango(cs[j]) < Rango(cs[k]))
  }

  /** The columns the result map classifies as null. */
  ghost function ColumnasNulas(columnas: map<Columna, ResultadoColumna>): set<TipoCargo>
  {
    set c: Columna | c in columnas.Keys && columnas[c].estado == Nulo :: c
  }

  /** The columns a motive list is about, in order. */
  function ColumnasDe(ms: seq<MotivoCedula>): (cs: seq<TipoCargo>)
    requires forall k | 0 <= k < |ms| :: ms[k].EnColumna?
    ensures |cs| == |ms| && forall k | 0 <= k < |ms| :: cs[k] == ms[k].columna
  {
    if |ms| == 0 then [] else [ms[0].columna] + ColumnasDe(ms[1..])
  }

  /** The ballot-level motive list: one entry per null column, left to right, each carrying that column's reason. */
  ghost predicate MotivosPorColumna(ms: seq<MotivoCedula>, columnas: map<Columna, ResultadoColumna>)
  {
    && (forall k | 0 <= k < |ms| ::
          ms[k].EnColumna? && ms[k].columna in columnas && columnas[ms[k].columna].motivo == Some(ms[k].motivo))
    && EnumeraEnOrden(ColumnasDe(ms), ColumnasNulas(columnas))
  }

  /** The offices the valid-ballot summary names. */
  ghost function MarcadasEnResumen(v: VotoCedula): set<TipoCargo>
  {
    set t | t in TodasLasColumnas && MarcadaEnResumen(v, t)
  }

  /** Visits `orden` and pushes one motive per column whose result carries one (the `if (r.motivo) motivos.push(...)` lines). */
  function MotivosDe(columnas: map<Columna, ResultadoColumna>, orden: seq<Columna>): seq<MotivoCedula>
  {
    if |orden| == 0 then []
    else
      var c := orden[0];
      (if c in columnas && columnas[c].motivo.Some? then [EnColumna(c, columnas[c].motivo.value)] else [])
      + MotivosDe(columnas, orden[1..])
  }

  /** Whether a column's result carries a motive (`if (r.motivo)`). */
  function TieneMotivo(columnas: map<Columna, ResultadoColumna>): Columna -> bool
  {
    c => c in columnas && columnas[c].motivo.Some?
  }

  /** The pushed motives are the visited columns that carry a motive, in visiting order, each with its own motive. */
  lemma {:induction false} MotivosDeEnOrden(columnas: map<Columna, ResultadoColumna>, orden: seq<Columna>)
    ensures forall k | 0 <= k < |MotivosDe(columnas, orden)| ::
      var m := MotivosDe(columnas, orden)[k];
      m.EnColumna? && m.columna in columnas && columnas[m.columna].motivo == Some(m.motivo)
    ensures ColumnasDe(MotivosDe(columnas, orden)) == Filter(orden, TieneMotivo(columnas))
  {
    MotivosDeCampos(columnas, orden);
    MotivosDeColumnas(columnas, orden);
  }

  /** Each pushed motive names a judged column and carries that column's own motive. */
  lemma {:induction false} MotivosDeCampos(columnas: map<Columna, ResultadoColumna>, orden: seq<Columna>)
    ensures forall k | 0 <= k < |MotivosDe(columnas, orden)| ::
      var m := MotivosDe(columnas, orden)[k];
      m.EnColumna? && m.columna in columnas && columnas[m.columna].motivo == Some(m.motivo)
    decreases |orden|
  {
    if |orden| > 0 {
      var c: Columna := orden[0];
      MotivosDeCampos(columnas, orden[1..]);
      var rest := MotivosDe(columnas, orden[1..]);
      var ms := MotivosDe(columnas, orden);
      if c in columnas && columnas[c].motivo.Some? {
        assert ms == [EnColumna(c, columnas[c].motivo.value)] + rest;
        assert forall k | 0 <= k < |rest| :: ms[k + 1] == rest[k];
      } else {
        assert ms == rest;
      }
    }
  }

  /** The columns of the pushed motives are the visited columns that carry one, in visiting order. */
  lemma {:induction false} MotivosDeColumnas(columnas: map<Columna, ResultadoColumna>, orden: seq<Columna>)
    ensures forall k | 0 <= k < |MotivosDe(columnas, orden)| :: MotivosDe(columnas, orden)[k].EnColumna?
    ensures ColumnasDe(MotivosDe(columnas, orden)) == Filter(orden, TieneMotivo(columnas))
    decreases |orden|
  {
    if |orden| > 0 {
      var c: Columna := orden[0];
      var p := TieneMotivo(columnas);
      MotivosDeColumnas(columnas, orden[1..]);
      var rest := MotivosDe(columnas, orden[1..]);
      var ms := MotivosDe(columnas, orden);
      assert Filter(orden, p) == (if p(c) then [c] else []) + Filter(orden[1..], p);
      if p(c) {
        var m := EnColumna(c, columnas[c].motivo.value);
        assert ms == [m] + rest;
        ColumnasDeCons(m, rest);
      } else {
        assert ms == rest;
      }
    }
  }

  /** `ColumnasDe` of a motive followed by more motives. */
  lemma {:induction false} ColumnasDeCons(m: MotivoCedula, rest: seq<MotivoCedula>)
    requires m.EnColumna? && forall k | 0 <= k < |rest| :: rest[k].EnColumna?
    ensures forall k | 0 <= k < |[m] + rest| :: ([m] + rest)[k].EnColumna?
    ensures ColumnasDe([m] + rest) == [m.columna] + ColumnasDe(rest)
  {
    var ms := [m] + rest;
    assert forall k | 0 <= k < |rest| :: ms[k + 1] == rest[k];
    assert ms[1..] == rest;
  }

  /** The column results: exactly the marked preference columns, each judged against its own limit. */
  function EvaluarColumnas(v: VotoCedula): map<Columna, ResultadoColumna>
  {
    map c | c in OrdenColumnas && v.Sel(c).Some? :: ValidarColumna(v.Sel(c).value, MaxPreferenciales(c))
  }

  /** The five columns, left to right. */
  const TodasLasColumnas: seq<TipoCargo> :=
    [FormulaPresidencial, SenadorNacional, SenadorRegional, Diputado, ParlamentoAndino]

  /** Whether `generarResumenValido` names column `t`: the presidential id only when it is truthy (non-zero). */
  predicate MarcadaEnResumen(v: VotoCedula, t: TipoCargo)
  {
    if t == FormulaPresidencial then v.formulaPresidencial.Some? && v.formulaPresidencial.value != 0
    else v.Sel(t).Some?
  }

  /** `generarResumenValido`'s pushes: the columns, left to right, that the summary names. */
  function ColumnasMarcadas(v: VotoCedula): seq<TipoCargo>
  {
    Filter(TodasLasColumnas, MarcadaEn(v))
  }

  function MarcadaEn(v: VotoCedula): TipoCargo -> bool
  {
    t => MarcadaEnResumen(v, t)
  }

  function EsNula(columnas: map<Columna, ResultadoColumna>): Columna -> bool
  {
    c => c in columnas && columnas[c].estado == Nulo
  }

  /** `generarResumenNulo`'s filter: the entries, in insertion order, whose status is null. */
  function ColumnasNulasEnOrden(columnas: map<Columna, ResultadoColumna>): seq<Columna>
  {
    Filter(OrdenColumnas, EsNula(columnas))
  }

  /** `validarCedula`: classify the whole ballot. */
  function ValidarCedula(v: VotoCedula): (r: ResultadoCedula)
    ensures r.estado != Impugnado
    // the presidential column is never judged
    ensures r.formulaPresidencial.None?
    ensures r.estado == Blanco <==> EnBlanco(v)
    ensures EnBlanco(v) ==>
      r.columnas == map[] && r.motivos == [CedulaEnBlanco] && r.resumen == ResumenBlanco
    // one entry per marked preference column, judged on its own selection and limit only
    ensures !EnBlanco(v) ==> forall c: Columna :: c in r.columnas <==> v.Sel(c).Some?
    ensures forall c: Columna | c in r.columnas ::
      r.columnas[c] == ValidarColumna(v.Sel(c).value, MaxPreferenciales(c))
    // null in one column makes the ballot null without touching the other entries
    ensures !EnBlanco(v) ==>
      (r.estado == Nulo <==> exists c: Columna | c in r.columnas :: r.columnas[c].estado == Nulo)
    ensures !EnBlanco(v) ==> r.estado == Nulo || r.estado == Valido
    ensures r.estado == Nulo ==> MotivosPorColumna(r.motivos, r.columnas)
    ensures r.estado == Nulo ==>
      r.resumen.ResumenNulo? && r.resumen.motivos == r.motivos
      && EnumeraEnOrden(r.resumen.columnasNulas, ColumnasNulas(r.columnas))
    ensures r.estado == Valido ==>
      r.motivos == [] && r.resumen.ResumenValido?
      && EnumeraEnOrden(r.resumen.columnasMarcadas, MarcadasEnResumen(v))
  {
    EnBlancoSinMarcas(v);
    if !HayAlgunaMarca(v) then
      ResultadoCedula(Blanco, map[], None, [CedulaEnBlanco], ResumenBlanco)
    else
      var columnas := EvaluarColumnas(v);
      EvaluarColumnasCorrecto(v);
      var motivos := MotivosDe(columnas, OrdenColumnas);
      var tieneNulo := exists c | c in columnas.Keys :: columnas[c].estado == Nulo;
      if tieneNulo then
        MotivosDeCorrectos(columnas);
        ColumnasNulasCorrectas(columnas);
        ResultadoCedula(Nulo, columnas, None, motivos, ResumenNulo(ColumnasNulasEnOrden(columnas), motivos))
      else
        ColumnasMarcadasCorrectas(v);
        ResultadoCedula(Valido, columnas, None, [], ResumenValido(ColumnasMarcadas(v)))
  }

  lemma {:induction false} EnBlancoSinMarcas(v: VotoCedula)
    ensures EnBlanco(v) <==> !HayAlgunaMarca(v)
  {
    if HayAlgunaMarca(v) && v.formulaPresidencial.None? {
      if v.senadorNacional.Some? { assert v.Sel(SenadorNacional).Some?; }
      else if v.senadorRegional.Some? { assert v.Sel(SenadorRegional).Some?; }
      else if v.diputado.Some? { assert v.Sel(Diputado).Some?; }
      else { assert v.Sel(ParlamentoAndino).Some?; }
    }
  }

  lemma {:induction false} EvaluarColumnasCorrecto(v: VotoCedula)
    ensures forall c: Columna :: c in EvaluarColumnas(v) <==> v.Sel(c).Some?
    ensures forall c: Columna | c in EvaluarColumnas(v) ::
      EvaluarColumnas(v)[c] == ValidarColumna(v.Sel(c).value, MaxPreferenciales(c))
  {
    forall c: Columna ensures c in OrdenColumnas {
      assert OrdenColumnas[Indice(c)] == c;
    }
  }

  /** When every entry reports a motive exactly when it is null, the pushed motives are one per null column, left to right. */
  lemma {:induction false} MotivosDeCorrectos(columnas: map<Columna, ResultadoColumna>)
    requires forall c | c in columnas :: columnas[c].motivo.Some? <==> columnas[c].estado == Nulo
    ensures MotivosPorColumna(MotivosDe(columnas, OrdenColumnas), columnas)
  {
    forall c: Columna ensures c in OrdenColumnas {
      assert OrdenColumnas[Indice(c)] == c;
    }
    MotivosDeEnOrden(columnas, OrdenColumnas);
    FilterCongruent(OrdenColumnas, TieneMotivo(columnas), EsNula(columnas));
    ColumnasNulasCorrectas(columnas);
  }

  /** Filtering a strictly left-to-right sequence of columns enumerates what it keeps, left to right. */
  lemma {:induction false} FilterEnumera(orden: seq<TipoCargo>, p: TipoCargo -> bool)
    requires forall j, k | 0 <= j < k < |orden| :: Rango(orden[j]) < Rango(orden[k])
    ensures EnumeraEnOrden(Filter(orden, p), set t | t in orden && p(t))
  {
    FilterKeepsStrictlySorted(orden, p, Rango);
    forall t | t in orden && p(t) ensures t in Filter(orden, p) {
      FilterCount(orden, p, t);
    }
  }

  lemma {:induction false} ColumnasMarcadasCorrectas(v: VotoCedula)
    ensures EnumeraEnOrden(ColumnasMarcadas(v), MarcadasEnResumen(v))
  {
    FilterEnumera(TodasLasColumnas, MarcadaEn(v));
    assert (set t | t in TodasLasColumnas && MarcadaEn(v)(t)) == MarcadasEnResumen(v);
  }

  lemma {:induction false} ColumnasNulasCorrectas(columnas: map<Columna, ResultadoColumna>)
    ensures EnumeraEnOrden(ColumnasNulasEnOrden(columnas), ColumnasNulas(columnas))
  {
    var p := EsNula(columnas);
    var f := Filter(OrdenColumnas, p);
    var s := ColumnasNulas(columnas);
    assert forall k | 0 <= k < |f| :: f[k] in s by {
      forall k | 0 <= k < |f| ensures f[k] in s {
        assert f[k] in f;
      }
    }
    assert forall t | t in s :: t in f by {
      forall t | t in s ensures t in f {
        var c: Columna := t;
        assert OrdenColumnas[Indice(c)] == c;
        FilterCount(OrdenColumnas, p, c);
      }
    }
    assert forall j, k | 0 <= j < k < |f| :: Rango(f[j]) < Rango(f[k]) by {
      FilterKeepsStrictlySorted(OrdenColumnas, p, RangoColumna);
    }
  }
}

/** Properties of the validator that relate several calls, and the worked scenarios of the simulator's rules. */
module CedulaLogicProperties {
  import opened Wrappers
  import opened Seqs
  import opened Types
  import opened CedulaLogic

  /** A column's entry depends on nothing but that column's own selection. */
  lemma {:induction false} IndependenciaDeColumnas(v: VotoCedula, w: VotoCedula, c: Columna)
    requires v.Sel(c).Some? && v.Sel(c) == w.Sel(c)
    ensures c in ValidarCedula(v).columnas && c in ValidarCedula(w).columnas
    ensures ValidarCedula(v).columnas[c] == ValidarCedula(w).columnas[c]
  {
  }

  /** Partial nullity: one null column makes the ballot null while another marked column still reports valid. */
  lemma {:induction false} NulidadParcial(v: VotoCedula, c: Columna, d: Columna)
    requires v.Sel(c).Some? && ValidarColumna(v.Sel(c).value, MaxPreferenciales(c)).estado == Nulo
    requires v.Sel(d).Some? && ValidarColumna(v.Sel(d).value, MaxPreferenciales(d)).estado == Valido
    ensures ValidarCedula(v).estado == Nulo
    ensures ValidarCedula(v).columnas[d].estado == Valido
    ensures |ValidarCedula(v).motivos| >= 1
  {
    var r := ValidarCedula(v);
    assert c in r.columnas && r.columnas[c].estado == Nulo;
    HayMotivo(r, c);
  }

  /** A null ballot with a null column reports at least one motive. */
  lemma {:induction false} HayMotivo(r: ResultadoCedula, c: Columna)
    requires r.estado == Nulo ==> MotivosPorColumna(r.motivos, r.columnas)
    requires r.estado == Nulo && c in r.columnas && r.columnas[c].estado == Nulo
    ensures |r.motivos| >= 1
  {
    assert c in ColumnasNulas(r.columnas);
    assert c in ColumnasDe(r.motivos);
  }

  /** The limit is exact: `N` distinct positive numbers pass, `N + 1` make the column null. */
  lemma {:induction false} LimiteExacto(sel: SeleccionColumna, c: Columna)
    requires Distinct(sel.preferencias)
    requires forall k | 0 <= k < |sel.preferencias| :: sel.preferencias[k] > 0
    ensures |sel.preferencias| == MaxPreferenciales(c) ==>
      ValidarColumna(sel, MaxPreferenciales(c)).estado == Valido
    ensures |sel.preferencias| == MaxPreferenciales(c) + 1 ==>
      ValidarColumna(sel, MaxPreferenciales(c)) ==
        ResultadoColumna(Nulo, Some(ExcedeMaximo(MaxPreferenciales(c) + 1, MaxPreferenciales(c))))
  {
    ConfigColumnasCoincide();
  }

  /** A ballot with a single marked preference column takes that column's status, and when null its motive is the only one reported. */
  lemma {:induction false} UnaSolaColumna(v: VotoCedula, c: Columna)
    requires v.Sel(c).Some?
    requires forall d: Columna | d != c :: v.Sel(d).None?
    ensures var e := ValidarColumna(v.Sel(c).value, MaxPreferenciales(c));
      && ValidarCedula(v).columnas == map[c := e]
      && ValidarCedula(v).estado == e.estado
      && (e.estado == Nulo ==> ValidarCedula(v).motivos == [EnColumna(c, e.motivo.value)])
  {
    var r := ValidarCedula(v);
    assert !EnBlanco(v);
    ResultadoDeUnaColumna(v, c, r);
  }

  /** The single-column facts, read off any result that meets the classification's contract for `v`. */
  lemma {:induction false} ResultadoDeUnaColumna(v: VotoCedula, c: Columna, r: ResultadoCedula)
    requires v.Sel(c).Some?
    requires forall d: Columna | d != c :: v.Sel(d).None?
    requires forall d: Columna :: d in r.columnas <==> v.Sel(d).Some?
    requires forall d: Columna | d in r.columnas ::
      r.columnas[d] == ValidarColumna(v.Sel(d).value, MaxPreferenciales(d))
    requires r.estado == Nulo <==> exists d: Columna | d in r.columnas :: r.columnas[d].estado == Nulo
    requires r.estado == Nulo || r.estado == Valido
    requires r.estado == Nulo ==> MotivosPorColumna(r.motivos, r.columnas)
    ensures var e := ValidarColumna(v.Sel(c).value, MaxPreferenciales(c));
      && r.columnas == map[c := e]
      && r.estado == e.estado
      && (e.estado == Nulo ==> r.motivos == [EnColumna(c, e.motivo.value)])
  {
    var e := ValidarColumna(v.Sel(c).value, MaxPreferenciales(c));
    MapaUnico(r.columnas, c, e);
    assert c in r.columnas;
    if e.estado == Nulo {
      UnicoNulo(r.motivos, r.columnas, c);
    }
  }

  /** A map whose only key is `c` is the one-entry map. */
  lemma {:induction false} MapaUnico(m: map<Columna, ResultadoColumna>, c: Columna, e: ResultadoColumna)
    requires forall d: Columna :: d in m <==> d == c
    requires c in m && m[c] == e
    ensures m == map[c := e]
  {
    assert m.Keys == {c};
  }

  lemma {:induction false} UnicoNulo(ms: seq<MotivoCedula>, columnas: map<Columna, ResultadoColumna>, c: Columna)
    requires columnas.Keys == {c} && columnas[c].estado == Nulo && columnas[c].motivo.Some?
    requires MotivosPorColumna(ms, columnas)
    ensures ms == [EnColumna(c, columnas[c].motivo.value)]
  {
    assert ColumnasNulas(columnas) == {c};
    EnumeraUnico(ColumnasDe(ms), c);
    assert ms[0].columna == c;
  }

  /** A left-to-right enumeration of a single office is that office alone. */
  lemma {:induction false} EnumeraUnico(cs: seq<TipoCargo>, t: TipoCargo)
    requires EnumeraEnOrden(cs, {t})
    ensures cs == [t]
  {
    assert Distinct(cs);
    ElementsCardinality(cs);
    assert Elements(cs) == {t};
  }

  /** A presidential list plus a national-senate column with a repeated number: that column and the ballot are null, the ticket is not judged. */
  lemma {:induction false} EscenarioDuplicado(v: VotoCedula, n: int)
    requires v.formulaPresidencial.Some?
    requires v.senadorNacional.Some? && v.senadorNacional.value.preferencias == [n, n]
    requires v.senadorRegional.None? && v.diputado.None? && v.parlamentoAndino.None?
    ensures ValidarCedula(v).estado == Nulo
    ensures ValidarCedula(v).columnas == map[SenadorNacional := ResultadoColumna(Nulo, Some(Duplicado))]
    ensures ValidarCedula(v).motivos == [EnColumna(SenadorNacional, Duplicado)]
  {
    var p := v.senadorNacional.value.preferencias;
    assert p[0] == p[1];
    UnaSolaColumna(v, SenadorNacional);
  }

  /** Three distinct numbers in the deputies column, whose limit is two: null for exceeding the limit, citing 3 and 2. */
  lemma {:induction false} EscenarioExcedeMaximo(v: VotoCedula, a: int, b: int, c: int)
    requires a != b && b != c && a != c
    requires v.diputado.Some? && v.diputado.value.preferencias == [a, b, c]
    requires v.senadorNacional.None? && v.senadorRegional.None? && v.parlamentoAndino.None?
    ensures ValidarCedula(v).estado == Nulo
    ensures ValidarCedula(v).columnas == map[Diputado := ResultadoColumna(Nulo, Some(ExcedeMaximo(3, 2)))]
  {
    var p := v.diputado.value.preferencias;
    assert Distinct(p) by {
      forall i, j | 0 <= i < j < |p| ensures p[i] != p[j] {
      }
    }
    assert MaxPreferenciales(Diputado) == 2;
    assert ValidarColumna(v.diputado.value, 2) == ResultadoColumna(Nulo, Some(ExcedeMaximo(3, 2)));
    UnaSolaColumna(v, Diputado);
  }

  /** Nothing marked: blank, with an empty column map, the blank-ballot motive and the blank summary. */
  lemma {:induction false} EscenarioBlanco()
    ensures ValidarCedula(VotoVacio).estado == Blanco
    ensures ValidarCedula(VotoVacio).columnas == map[]
    ensures ValidarCedula(VotoVacio).motivos == [CedulaEnBlanco]
    ensures ValidarCedula(VotoVacio).resumen == ResumenBlanco
  {
  }

  /** Only a regional-senate list, without preference numbers: valid, and the summary names just that column. */
  lemma {:induction false} EscenarioSoloLista(v: VotoCedula)
    requires v.senadorRegional.Some? && v.senadorRegional.value.preferencias == []
    requires v.formulaPresidencial.None?
    requires v.senadorNacional.None? && v.diputado.None? && v.parlamentoAndino.None?
    ensures ValidarCedula(v).estado == Valido
    ensures ValidarCedula(v).columnas == map[SenadorRegional := ResultadoColumna(Valido, None)]
    ensures ValidarCedula(v).resumen == ResumenValido([SenadorRegional])
  {
    UnaSolaColumna(v, SenadorRegional);
    var r := ValidarCedula(v);
    MarcadasSoloRegional(v);
    EnumeraUnico(r.resumen.columnasMarcadas, SenadorRegional);
  }

  lemma {:induction false} MarcadasSoloRegional(v: VotoCedula)
    requires v.senadorRegional.Some? && v.formulaPresidencial.None?
    requires v.senadorNacional.None? && v.diputado.None? && v.parlamentoAndino.None?
    ensures MarcadasEnResumen(v) == {SenadorRegional}
  {
    forall t | t in MarcadasEnResumen(v) ensures t == SenadorRegional {
    }
    assert SenadorRegional in TodasLasColumnas;
  }
}
