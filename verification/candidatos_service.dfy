/**
 * The roster assembly of `candidatos-service.ts`: raw feed rows become the five
 * sorted sequences of electoral lists the ballot simulator renders. The row
 * list, which the original imports from a bundled JSON file, is a parameter.
 */
module CandidatosService {
  import opened Wrappers
  import opened Seqs
  import opened Text
  import opened Types

  const JneFotoBase: string := "https://mpesije.jne.gob.pe/apidocs"

  /** The 2026 general election. */
  const IdProceso: int := 124

  /** `ID_CARGO`. */
  const IdCargoPresidente: int := 1
  const IdCargoVp1: int := 2
  const IdCargoVp2: int := 3
  const IdCargoParlamentoAndino: int := 5
  const IdCargoDiputado: int := 15
  const IdCargoSenador: int := 16

  /** The ubigeo code of the single national senate district. */
  const UbigeoNacional: string := "000000"

  /** The sentinel for a missing position or a missing draw number. */
  const SinPosicion: int := 999

  /**
   * `ORDEN_ONPE[id] ?? 999`: the ballot position the electoral office drew for
   * each organization, or the sentinel. Position 14 belonged to an organization
   * (id 2968) that was later excluded, so no entry holds it.
   */
  function NumeroOnpe(id: int): (n: int)
    ensures n == SinPosicion || (1 <= n <= 38 && n != 14)
  {
    match id
    case 3025 => 1 case 2869 => 2 case 2941 => 3 case 2901 => 4 case 2895 => 5 case 2961 => 6
    case 2932 => 7 case 2921 => 8 case 2967 => 9 case 2935 => 10 case 2956 => 11 case 2857 => 12
    case 2218 => 13 case 2931 => 15 case 1264 => 16 case 2731 => 17 case 2986 => 18 case 2898 => 19
    case 2985 => 20 case 1366 => 21 case 1257 => 22 case 2995 => 23 case 2980 => 24 case 2933 => 25
    case 2998 => 26 case 2173 => 27 case 2924 => 28 case 2925 => 29 case 2927 => 30 case 14 => 31
    case 2930 => 32 case 22 => 33 case 2867 => 34 case 3024 => 35 case 2939 => 36 case 3023 => 37
    case 2840 => 38
    case _ => SinPosicion
  }

  /** The draw read backwards: the organization that holds ballot position `n`. */
  function OrganizacionEnPosicion(n: int): (id: Option<int>)
    ensures id.Some? <==> 1 <= n <= 38 && n != 14
  {
    match n
    case 1 => Some(3025) case 2 => Some(2869) case 3 => Some(2941) case 4 => Some(2901)
    case 5 => Some(2895) case 6 => Some(2961) case 7 => Some(2932) case 8 => Some(2921)
    case 9 => Some(2967) case 10 => Some(2935) case 11 => Some(2956) case 12 => Some(2857)
    case 13 => Some(2218) case 15 => Some(2931) case 16 => Some(1264) case 17 => Some(2731)
    case 18 => Some(2986) case 19 => Some(2898) case 20 => Some(2985) case 21 => Some(1366)
    case 22 => Some(1257) case 23 => Some(2995) case 24 => Some(2980) case 25 => Some(2933)
    case 26 => Some(2998) case 27 => Some(2173) case 28 => Some(2924) case 29 => Some(2925)
    case 30 => Some(2927) case 31 => Some(14) case 32 => Some(2930) case 33 => Some(22)
    case 34 => Some(2867) case 35 => Some(3024) case 36 => Some(2939) case 37 => Some(3023)
    case 38 => Some(2840)
    case _ => None
  }

  /** Reading a drawn position backwards recovers the organization. */
  lemma {:induction false} OnpeIdaYVuelta(id: int)
    ensures NumeroOnpe(id) != SinPosicion <==> OrganizacionEnPosicion(NumeroOnpe(id)) == Some(id)
  {
  }

  /** Every drawn position belongs to exactly the organization found by reading it backwards. */
  lemma {:induction false} OnpeVueltaEIda(n: int)
    ensures OrganizacionEnPosicion(n).Some? ==> NumeroOnpe(OrganizacionEnPosicion(n).value) == n
  {
  }

  /** No two organizations share a drawn position, and the excluded organization 2968 has none. */
  lemma {:induction false} OnpeInyectivo(a: int, b: int)
    requires NumeroOnpe(a) == NumeroOnpe(b) != SinPosicion
    ensures a == b
    ensures NumeroOnpe(2968) == SinPosicion
  {
    OnpeIdaYVuelta(a);
    OnpeIdaYVuelta(b);
  }

  /** One row of the electoral authority's feed (`JNECandidatoRaw`); `null` and `undefined` both become `None`. */
  datatype FilaJne = FilaJne(
    idProcesoElectoral: int,
    idOrganizacionPolitica: int,
    strOrganizacionPolitica: Option<string>,
    intPosicion: Option<int>,
    idCargo: int,
    strNombres: Option<string>,
    strApellidoPaterno: Option<string>,
    strApellidoMaterno: Option<string>,
    strEstadoCandidato: Option<string>,
    strGuidFoto: Option<string>,
    strNombre: Option<string>,
    strUbigeo: Option<string>,
    strDepartamento: Option<string>,
    strDocumentoIdentidad: Option<string>)

  // ---------------------------------------------------------------- text helpers

  /** `normalizarDep`: upper case, canonical decomposition, combining marks removed. */
  function NormalizarDep(s: string): (r: string)
    ensures forall k | 0 <= k < |r| :: !EsMarca(r[k])
  {
    var r := Filter(Nfd(Mayusculas(s)), NoEsMarca());
    assert forall k | 0 <= k < |r| :: r[k] in r;
    r
  }

  /** The normalized text is upper case and carries no decomposable letter, so normalizing again changes nothing. */
  lemma {:induction false} NormalizarDepIdempotente(s: string)
    ensures Mayusculas(NormalizarDep(s)) == NormalizarDep(s)
    ensures NormalizarDep(NormalizarDep(s)) == NormalizarDep(s)
  {
    var u := Mayusculas(s);
    var d := Nfd(u);
    var r := NormalizarDep(s);
    MayusculasSonMayusculas(s);
    NfdEstable(u);
    assert forall x | x in r :: x in d;
    MayusculasFijo(r);
    NfdFijo(r);
    FilterAll(r, NoEsMarca());
  }

  /** An accented capital followed by plain capitals loses just its accent. */
  lemma {:induction false} NormalizarDepAcento(c: char, t: string)
    requires EsMayuscula(c) && |Descomponer(c)| == 2
    requires forall k | 0 <= k < |t| :: 'A' <= t[k] <= 'Z'
    ensures NormalizarDep([c] + t) == [Descomponer(c)[0]] + t
  {
    MayusculasAcento(c, t);
    NfdAcento(c, t);
    QuitarMarcaAcento(Descomponer(c), t);
  }

  lemma {:induction false} MayusculasAcento(c: char, t: string)
    requires EsMayuscula(c)
    requires forall k | 0 <= k < |t| :: 'A' <= t[k] <= 'Z'
    ensures Mayusculas([c] + t) == [c] + t
  {
    forall x | x in t ensures EsMayuscula(x) {
      var k :| 0 <= k < |t| && t[k] == x;
      MayusculaAscii(x);
    }
    MayusculasFijo(t);
    var s := [c] + t;
    assert s[0] == c && s[1..] == t;
  }

  lemma {:induction false} NfdAcento(c: char, t: string)
    requires forall k | 0 <= k < |t| :: 'A' <= t[k] <= 'Z'
    ensures Nfd([c] + t) == Descomponer(c) + t
  {
    forall x | x in t ensures Descomponer(x) == [x] {
      SinDescomposicion(x);
    }
    NfdFijo(t);
    assert ([c] + t)[1..] == t;
  }

  lemma {:induction false} QuitarMarcaAcento(d: string, t: string)
    requires |d| == 2 && 'A' <= d[0] <= 'Z' && EsMarca(d[1])
    requires forall k | 0 <= k < |t| :: 'A' <= t[k] <= 'Z'
    ensures Filter(d + t, NoEsMarca()) == [d[0]] + t
  {
    FilterAppend(d, t, NoEsMarca());
    FilterAll(t, NoEsMarca());
    assert d == [d[0]] + [d[1]];
    FilterAppend([d[0]], [d[1]], NoEsMarca());
  }

  /** The department name of the source's own example loses its accent. */
  lemma {:induction false} NormalizarDepAncash()
    ensures NormalizarDep("\U{C1}NCASH") == "ANCASH"
  {
    NormalizarDepAcento('\U{C1}', "NCASH");
    assert ['\U{C1}'] + "NCASH" == "\U{C1}NCASH";
    assert ['A'] + "NCASH" == "ANCASH";
  }

  /** `nombreArchivo?.toLowerCase().endsWith(".jpeg") ? "jpeg" : "jpg"`. */
  function Extension(nombreArchivo: Option<string>): string
  {
    if nombreArchivo.Some? && TerminaEn(Minusculas(nombreArchivo.value), ".jpeg") then "jpeg" else "jpg"
  }

  /** `buildFotoUrl`: the photo address, absent when the photo id is missing or blank. */
  function BuildFotoUrl(guidFoto: Option<string>, nombreArchivo: Option<string>): (r: Option<string>)
    ensures r.None? <==> guidFoto.None? || Trim(guidFoto.value) == ""
  {
    if guidFoto.None? || guidFoto.value == "" || Trim(guidFoto.value) == "" then None
    else Some(JneFotoBase + "/" + Trim(guidFoto.value) + "." + Extension(nombreArchivo))
  }

  /** A photo address is the base, the trimmed photo id, and the file's own extension: the id can be read back from it. */
  lemma {:induction false} BuildFotoUrlPartes(guidFoto: Option<string>, nombreArchivo: Option<string>)
    requires BuildFotoUrl(guidFoto, nombreArchivo).Some?
    ensures var u := BuildFotoUrl(guidFoto, nombreArchivo).value;
      var ext := Extension(nombreArchivo);
      && |u| == |JneFotoBase| + 1 + |Trim(guidFoto.value)| + 1 + |ext|
      && u[..|JneFotoBase| + 1] == JneFotoBase + "/"
      && u[|JneFotoBase| + 1..|u| - |ext| - 1] == Trim(guidFoto.value)
      && TerminaEn(u, "." + ext)
      && (ext == "jpeg" <==> TerminaEn(Minusculas(nombreArchivo.GetOr("")), ".jpeg"))
  {
    var u := BuildFotoUrl(guidFoto, nombreArchivo).value;
    var g := Trim(guidFoto.value);
    var ext := Extension(nombreArchivo);
    assert u == (JneFotoBase + "/") + g + ("." + ext);
  }

  /** `PALABRAS_EXCLUIDAS`: the articles, prepositions and conjunctions `generarSigla` skips. */
  const PalabrasExcluidas: set<string> := {"DE", "DEL", "LA", "EL", "LOS", "LAS", "Y", "E", "A", "EN", "POR", "PARA"}

  /** `p.length > 1 && !PALABRAS_EXCLUIDAS.has(p)`. */
  function EsSignificativa(): string -> bool
  {
    p => |p| > 1 && p !in PalabrasExcluidas
  }

  /** `nombre.trim().toUpperCase().split(/\s+/)`. */
  function Palabras(nombre: string): seq<string>
  {
    Dividir(Mayusculas(Trim(nombre)))
  }

  /** The words `generarSigla` keeps: short and excluded words dropped. */
  function Significativas(nombre: string): (ps: seq<string>)
    ensures forall i | 0 <= i < |ps| :: |ps[i]| > 1 && ps[i] !in PalabrasExcluidas
  {
    var ps := Filter(Palabras(nombre), EsSignificativa());
    assert forall i | 0 <= i < |ps| :: ps[i] in ps;
    ps
  }

  /** `generarSigla`: the initials of the first four significant words. */
  function Sigla(nombre: string): (r: string)
    ensures |r| <= 4
    ensures |r| == if |Significativas(nombre)| < 4 then |Significativas(nombre)| else 4
    ensures forall i | 0 <= i < |r| :: r[i] == Significativas(nombre)[i][0]
  {
    var ps := Significativas(nombre);
    var n := if |ps| < 4 then |ps| else 4;
    seq(n, i requires 0 <= i < n => ps[i][0])
  }

  /** Every significant word is kept, as often as it occurs and in its order, and nothing else is. */
  lemma {:induction false} SignificativasCompletas(nombre: string, w: string)
    ensures w in Significativas(nombre) <==> w in Palabras(nombre) && |w| > 1 && w !in PalabrasExcluidas
    ensures multiset(Significativas(nombre))[w] ==
      if |w| > 1 && w !in PalabrasExcluidas then multiset(Palabras(nombre))[w] else 0
    ensures Subsecuencia(Significativas(nombre), Palabras(nombre))
  {
    FilterCount(Palabras(nombre), EsSignificativa(), w);
    FilterSubsecuencia(Palabras(nombre), EsSignificativa());
  }

  /** A name has no initials exactly when every one of its words is a single letter or an excluded word. */
  lemma {:induction false} SiglaVacia(nombre: string)
    ensures Sigla(nombre) == "" <==> forall w | w in Palabras(nombre) :: |w| <= 1 || w in PalabrasExcluidas
  {
    var ps := Significativas(nombre);
    if ps != [] {
      assert ps[0] in ps;
      SignificativasCompletas(nombre, ps[0]);
      assert |Sigla(nombre)| > 0;
    } else {
      forall w | w in Palabras(nombre) ensures |w| <= 1 || w in PalabrasExcluidas {
        SignificativasCompletas(nombre, w);
      }
    }
  }

  /** The initials are visible upper-case characters of the name, and a blank name has none. */
  lemma {:induction false} SiglaCorrecta(nombre: string)
    ensures forall i | 0 <= i < |Sigla(nombre)| :: EsMayuscula(Sigla(nombre)[i]) && !EsEspacio(Sigla(nombre)[i])
    ensures Trim(nombre) == "" ==> Sigla(nombre) == ""
  {
    var u := Mayusculas(Trim(nombre));
    var ws := Palabras(nombre);
    var ps := Significativas(nombre);
    MayusculasSonMayusculas(Trim(nombre));
    DividirSinEspacios(u);
    DividirVisibles(u);
    forall i | 0 <= i < |Sigla(nombre)| ensures EsMayuscula(Sigla(nombre)[i]) && !EsEspacio(Sigla(nombre)[i]) {
      var w := ps[i];
      assert w in ps;
      var j :| 0 <= j < |ws| && ws[j] == w;
      assert !EsEspacio(ws[j][0]);
      ConcatContiene(ws, j, 0);
      assert w[0] in Visibles(u);
      assert w[0] in u;
    }
    if Trim(nombre) == "" {
      assert Mayusculas("") == "";
      assert ws == [""];
      assert Filter(ws, EsSignificativa()) == [];
    }
  }

  /** A character of one piece is a character of the concatenation. */
  lemma {:induction false} ConcatContiene(ws: seq<string>, j: nat, k: nat)
    requires j < |ws| && k < |ws[j]|
    ensures ws[j][k] in Concat(ws)
    decreases j
  {
    if j > 0 {
      ConcatContiene(ws[1..], j - 1, k);
      assert ws[1..][j - 1] == ws[j];
    }
  }

  /** `mapOrganizacion`: an empty name is shown as "Sin nombre" but its initials are computed from the empty string. */
  function MapOrganizacion(idOrg: int, nombre: string, numeroLista: int): (o: OrganizacionPolitica)
    ensures o.id == idOrg && o.numeroLista == numeroLista && o.colorPrimario == "#6B7280"
    ensures o.nombre != ""
    ensures nombre != "" ==> o.nombre == nombre
    ensures nombre == "" ==> o.nombre == "Sin nombre"
    ensures o.sigla == Sigla(nombre)
  {
    OrganizacionPolitica(idOrg, if nombre == "" then "Sin nombre" else nombre, Sigla(nombre), "#6B7280", numeroLista)
  }

  /** `${nombres} ${ap} ${am}`, whitespace runs collapsed to one space, then trimmed. */
  function NombreCompleto(nombres: string, ap: string, am: string): string
  {
    Trim(Colapsar(nombres + " " + ap + " " + am))
  }

  /** The full name has no whitespace at either end and only single spaces inside. */
  lemma {:induction false} NombreCompletoForma(nombres: string, ap: string, am: string)
    ensures var r := NombreCompleto(nombres, ap, am);
      && (|r| > 0 ==> !EsEspacio(r[0]) && !EsEspacio(r[|r| - 1]))
      && (forall k | 0 <= k < |r| :: EsEspacio(r[k]) ==> r[k] == ' ')
      && (forall k | 0 <= k < |r| - 1 :: !(EsEspacio(r[k]) && EsEspacio(r[k + 1])))
  {
    FormaTrasColapsar(nombres + " " + ap + " " + am);
  }

  /** The full name holds exactly the visible characters of the three parts, in order. */
  lemma {:induction false} NombreCompletoVisibles(nombres: string, ap: string, am: string)
    ensures Visibles(NombreCompleto(nombres, ap, am)) == Visibles(nombres) + Visibles(ap) + Visibles(am)
  {
    VisiblesTrasColapsar(nombres + " " + ap + " " + am);
    VisiblesTres(nombres, ap, am);
  }

  /** Collapsing then trimming leaves single inner spaces and no whitespace at the ends. */
  lemma {:induction false} FormaTrasColapsar(s: string)
    ensures var r := Trim(Colapsar(s));
      && (|r| > 0 ==> !EsEspacio(r[0]) && !EsEspacio(r[|r| - 1]))
      && (forall k | 0 <= k < |r| :: EsEspacio(r[k]) ==> r[k] == ' ')
      && (forall k | 0 <= k < |r| - 1 :: !(EsEspacio(r[k]) && EsEspacio(r[k + 1])))
  {
    ColapsarForma(s);
    TrimConservaForma(Colapsar(s));
  }

  /** Collapsing then trimming keeps the visible characters. */
  lemma {:induction false} VisiblesTrasColapsar(s: string)
    ensures Visibles(Trim(Colapsar(s))) == Visibles(s)
  {
    TrimVisibles(Colapsar(s));
    ColapsarVisibles(s);
  }

  /** Joining with spaces adds no visible character. */
  lemma {:induction false} VisiblesTres(a: string, b: string, c: string)
    ensures Visibles(a + " " + b + " " + c) == Visibles(a) + Visibles(b) + Visibles(c)
  {
    VisiblesDeEspacios(" ");
    calc {
      Visibles(a + " " + b + " " + c);
      { VisiblesAppend(a + " " + b + " ", c); }
      Visibles(a + " " + b + " ") + Visibles(c);
      { VisiblesAppend(a + " " + b, " "); }
      Visibles(a + " " + b) + Visibles(c);
      { VisiblesAppend(a + " ", b); }
      Visibles(a + " ") + Visibles(b) + Visibles(c);
      { VisiblesAppend(a, " "); }
      Visibles(a) + Visibles(b) + Visibles(c);
    }
  }

  /** Trimming keeps "whitespace is single spaces" true, since it returns a slice. */
  lemma {:induction false} TrimConservaForma(c: string)
    requires forall k | 0 <= k < |c| :: EsEspacio(c[k]) ==> c[k] == ' '
    requires forall k | 0 <= k < |c| - 1 :: !(EsEspacio(c[k]) && EsEspacio(c[k + 1]))
    ensures var r := Trim(c);
      && (forall k | 0 <= k < |r| :: EsEspacio(r[k]) ==> r[k] == ' ')
      && (forall k | 0 <= k < |r| - 1 :: !(EsEspacio(r[k]) && EsEspacio(r[k + 1])))
  {
    var r := Trim(c);
    var i := InicioTrim(c);
    assert forall k | 0 <= k < |r| :: r[k] == c[i + k];
  }

  /** `idHojaVida`: the trimmed document number read as decimal when it is all digits, otherwise 0. */
  function IdHojaVida(documento: Option<string>): (n: int)
    ensures n >= 0
    ensures n != 0 ==> documento.Some? && SoloDigitos(Trim(documento.value))
  {
    if documento.Some? && documento.value != "" && SoloDigitos(Trim(documento.value))
    then ValorDecimal(Trim(documento.value))
    else 0
  }

  /** `dni`: the trimmed document number, absent when blank. */
  function Dni(documento: Option<string>): (r: Option<string>)
    ensures r.Some? ==> documento.Some? && r.value == Trim(documento.value) && r.value != ""
    ensures documento.Some? && Trim(documento.value) != "" ==> r.Some?
  {
    if documento.Some? && Trim(documento.value) != "" then Some(Trim(documento.value)) else None
  }

  /** A document number written in decimal is read back as that number. */
  lemma {:induction false} IdHojaVidaDecimal(n: nat)
    ensures IdHojaVida(Some(Decimal(n))) == n
  {
    var s := Decimal(n);
    assert !EsEspacio(s[0]) && !EsEspacio(s[|s| - 1]);
    assert TrimStart(s) == s;
    assert TrimEnd(s) == s;
    ValorDecimalDeDecimal(n);
  }

  /** `mapCandidato`: the raw row as a candidate of office `cargo`, with the source's defaults. */
  function MapCandidato(f: FilaJne, cargo: TipoCargo): (c: Candidato)
    ensures c.cargo == cargo && c.idOrganizacion == f.idOrganizacionPolitica
    ensures c.numeroCandidato == f.intPosicion.GetOr(0)
    ensures c.estado == f.strEstadoCandidato.GetOr("INSCRITO")
    ensures c.departamento == f.strDepartamento
    ensures c.nombres == f.strNombres.GetOr("") && c.apellidoPaterno == f.strApellidoPaterno.GetOr("")
      && c.apellidoMaterno == f.strApellidoMaterno.GetOr("")
    ensures c.nombreCompleto == NombreCompleto(c.nombres, c.apellidoPaterno, c.apellidoMaterno)
    ensures c.idHojaVida == IdHojaVida(f.strDocumentoIdentidad)
    ensures c.dni == Dni(f.strDocumentoIdentidad)
    ensures c.fotoUrl == BuildFotoUrl(f.strGuidFoto, f.strNombre)
  {
    var nombres := f.strNombres.GetOr("");
    var ap := f.strApellidoPaterno.GetOr("");
    var am := f.strApellidoMaterno.GetOr("");
    Candidato(
      IdHojaVida(f.strDocumentoIdentidad), nombres, ap, am, NombreCompleto(nombres, ap, am), cargo,
      f.intPosicion.GetOr(0), BuildFotoUrl(f.strGuidFoto, f.strNombre), f.idOrganizacionPolitica,
      f.strEstadoCandidato.GetOr("INSCRITO"), f.strDepartamento, Dni(f.strDocumentoIdentidad))
  }

  // ---------------------------------------------------------------- grouping

  /** The sort key of a row inside its list: `intPosicion ?? 999`. */
  function PosicionDe(): FilaJne -> int
  {
    (f: FilaJne) => f.intPosicion.GetOr(SinPosicion)
  }

  function DeOrganizacion(id: int): FilaJne -> bool
  {
    (f: FilaJne) => f.idOrganizacionPolitica == id
  }

  /** The organization id of every row, in row order. */
  function IdsOrg(rows: seq<FilaJne>): (ids: seq<int>)
    ensures |ids| == |rows|
    ensures forall i | 0 <= i < |rows| :: ids[i] == rows[i].idOrganizacionPolitica
  {
    seq(|rows|, i requires 0 <= i < |rows| => rows[i].idOrganizacionPolitica)
  }

  /** The keys of the grouping map, in the order a JavaScript `Map` yields them: first appearance. */
  function Organizaciones(rows: seq<FilaJne>): (ids: seq<int>)
    ensures Distinct(ids)
    ensures forall id :: id in ids <==> id in IdsOrg(rows)
    ensures forall i, j | 0 <= i < j < |ids| :: Antes(IdsOrg(rows), ids[i], ids[j])
  {
    DedupOrden(IdsOrg(rows));
    Dedup(IdsOrg(rows))
  }

  /** One organization's rows, stably sorted by position. */
  function FilasDe(rows: seq<FilaJne>, id: int): (r: seq<FilaJne>)
    ensures SortedBy(r, PosicionDe())
  {
    SortBy(Filter(rows, DeOrganizacion(id)), PosicionDe())
  }

  /** An organization's group holds exactly the rows of that organization, each as often as in the input. */
  lemma {:induction false} FilasDeContenido(rows: seq<FilaJne>, id: int, f: FilaJne)
    ensures multiset(FilasDe(rows, id))[f] == if f.idOrganizacionPolitica == id then multiset(rows)[f] else 0
  {
    FilterCount(rows, DeOrganizacion(id), f);
  }

  /** An organization that has a row has a non-empty group, so `candidatosOrg[0]` exists. */
  lemma {:induction false} FilasDeNoVacio(rows: seq<FilaJne>, id: int)
    requires id in IdsOrg(rows)
    ensures |FilasDe(rows, id)| > 0
  {
    var i :| 0 <= i < |rows| && IdsOrg(rows)[i] == id;
    FilasDeContenido(rows, id, rows[i]);
    assert rows[i] in multiset(rows);
  }

  /** `mapaNumeros.get(idOrg) ?? 999`. */
  function NumeroLista(mapa: map<int, int>, id: int): int
  {
    if id in mapa then mapa[id] else SinPosicion
  }

  /** `candidatosOrg.map((r) => mapCandidato(r, cargo))`. */
  function MapCandidatos(filas: seq<FilaJne>, cargo: TipoCargo): (cs: seq<Candidato>)
    ensures |cs| == |filas|
    ensures forall k | 0 <= k < |filas| :: cs[k] == MapCandidato(filas[k], cargo)
  {
    seq(|filas|, k requires 0 <= k < |filas| => MapCandidato(filas[k], cargo))
  }

  /** The body of the grouping loop for one organization: its list, with the name taken from its first row. */
  function ConstruirLista(rows: seq<FilaJne>, id: int, cargo: TipoCargo, mapa: map<int, int>): (l: ListaElectoral)
    requires id in IdsOrg(rows)
    ensures l.id == id && l.cargo == cargo && l.organizacion.id == id
    ensures l.organizacion.numeroLista == NumeroLista(mapa, id)
    ensures l.presidente.None? && l.vicepresidente1.None? && l.vicepresidente2.None?
    ensures |FilasDe(rows, id)| > 0
    ensures l.organizacion == MapOrganizacion(id, FilasDe(rows, id)[0].strOrganizacionPolitica.GetOr("Sin nombre"), NumeroLista(mapa, id))
    ensures l.candidatos == MapCandidatos(FilasDe(rows, id), cargo)
  {
    FilasDeNoVacio(rows, id);
    var filas := FilasDe(rows, id);
    var nombre := filas[0].strOrganizacionPolitica.GetOr("Sin nombre");
    ListaElectoral(id, MapOrganizacion(id, nombre, NumeroLista(mapa, id)), cargo,
      MapCandidatos(filas, cargo), None, None, None)
  }

  /** Every row of an organization is among its list's candidates, and the list has one candidate per such row. */
  lemma {:induction false} FilaEnSuLista(rows: seq<FilaJne>, cargo: TipoCargo, mapa: map<int, int>, f: FilaJne)
    requires f in rows
    ensures var l := ConstruirLista(rows, f.idOrganizacionPolitica, cargo, mapa);
      && MapCandidato(f, cargo) in l.candidatos
      && |l.candidatos| == |Filter(rows, DeOrganizacion(f.idOrganizacionPolitica))|
  {
    var id := f.idOrganizacionPolitica;
    var i :| 0 <= i < |rows| && rows[i] == f;
    assert IdsOrg(rows)[i] == id;
    var filas := FilasDe(rows, id);
    FilasDeContenido(rows, id, f);
    assert f in multiset(filas);
    var k :| 0 <= k < |filas| && filas[k] == f;
    assert ConstruirLista(rows, id, cargo, mapa).candidatos[k] == MapCandidato(f, cargo);
  }

  /** One list per organization, in order of first appearance. */
  function ListasSinOrden(rows: seq<FilaJne>, cargo: TipoCargo, mapa: map<int, int>): (ls: seq<ListaElectoral>)
    ensures |ls| == |Organizaciones(rows)|
    ensures forall i | 0 <= i < |ls| :: ls[i] == ConstruirLista(rows, Organizaciones(rows)[i], cargo, mapa)
  {
    var ids := Organizaciones(rows);
    seq(|ids|, i requires 0 <= i < |ids| => ConstruirLista(rows, ids[i], cargo, mapa))
  }

  function IdDe(): ListaElectoral -> int
  {
    (l: ListaElectoral) => l.id
  }

  /** The sort key of the lists: `organizacion.numeroLista`. */
  function NumeroListaDe(): ListaElectoral -> int
  {
    (l: ListaElectoral) => l.organizacion.numeroLista
  }

  /** `agruparEnListas`: the lists stably sorted by ballot position. */
  function AgruparEnListas(rows: seq<FilaJne>, cargo: TipoCargo, mapa: map<int, int>): (ls: seq<ListaElectoral>)
    ensures SortedBy(ls, NumeroListaDe())
    ensures multiset(ls) == multiset(ListasSinOrden(rows, cargo, mapa))
  {
    SortBy(ListasSinOrden(rows, cargo, mapa), NumeroListaDe())
  }

  /** Lists sharing a ballot number (every organization outside the draw has 999) stay in order of first appearance. */
  lemma {:induction false} AgruparEnListasEstable(rows: seq<FilaJne>, cargo: TipoCargo, mapa: map<int, int>, n: int)
    ensures Filter(AgruparEnListas(rows, cargo, mapa), ConClave(NumeroListaDe(), n)) ==
      Filter(ListasSinOrden(rows, cargo, mapa), ConClave(NumeroListaDe(), n))
  {
    SortByStable(ListasSinOrden(rows, cargo, mapa), NumeroListaDe(), n);
  }

  /** The unsorted lists have one entry per organization: their ids are pairwise different. */
  lemma {:induction false} ListasSinOrdenIds(rows: seq<FilaJne>, cargo: TipoCargo, mapa: map<int, int>)
    ensures InjectiveOn(ListasSinOrden(rows, cargo, mapa), IdDe())
  {
    var ls := ListasSinOrden(rows, cargo, mapa);
    var ids := Organizaciones(rows);
    forall i, j | 0 <= i < j < |ls| ensures IdDe()(ls[i]) != IdDe()(ls[j]) {
      assert ls[i].id == ids[i] && ls[j].id == ids[j];
    }
  }

  /** The sorted lists: one per organization that has a row, and no organization twice. */
  lemma {:induction false} AgruparEnListasUnaPorOrganizacion(rows: seq<FilaJne>, cargo: TipoCargo, mapa: map<int, int>)
    ensures |AgruparEnListas(rows, cargo, mapa)| == |Organizaciones(rows)|
    ensures InjectiveOn(AgruparEnListas(rows, cargo, mapa), IdDe())
  {
    var ls := AgruparEnListas(rows, cargo, mapa);
    var u := ListasSinOrden(rows, cargo, mapa);
    ListasSinOrdenIds(rows, cargo, mapa);
    PermutationKeepsInjective(u, ls, IdDe());
    assert |multiset(ls)| == |multiset(u)|;
  }

  /** Every sorted list is the list built for its own organization, which has a row, and is of office `cargo`. */
  lemma {:induction false} AgruparEnListasMiembros(rows: seq<FilaJne>, cargo: TipoCargo, mapa: map<int, int>, l: ListaElectoral)
    requires l in AgruparEnListas(rows, cargo, mapa)
    ensures l.id in IdsOrg(rows) && l == ConstruirLista(rows, l.id, cargo, mapa) && l.cargo == cargo
  {
    var u := ListasSinOrden(rows, cargo, mapa);
    var ids := Organizaciones(rows);
    assert l in multiset(u);
    var i :| 0 <= i < |u| && u[i] == l;
    assert ids[i] in ids;
  }

  /** No row is lost: every row is a candidate of its organization's list. */
  lemma {:induction false} AgruparEnListasCubre(rows: seq<FilaJne>, cargo: TipoCargo, mapa: map<int, int>, i: nat)
    requires i < |rows|
    ensures exists l | l in AgruparEnListas(rows, cargo, mapa) ::
      l.id == rows[i].idOrganizacionPolitica && MapCandidato(rows[i], cargo) in l.candidatos
  {
    var ls := AgruparEnListas(rows, cargo, mapa);
    var u := ListasSinOrden(rows, cargo, mapa);
    var ids := Organizaciones(rows);
    var id := rows[i].idOrganizacionPolitica;
    assert IdsOrg(rows)[i] == id;
    assert id in IdsOrg(rows);
    assert id in ids;
    var j :| 0 <= j < |ids| && ids[j] == id;
    var l := u[j];
    assert l.id == id;
    assert l in multiset(u);
    assert l in ls;
    FilaEnSuLista(rows, cargo, mapa, rows[i]);
  }

  /** Every candidate of an organization's list is some row of that organization, mapped. */
  lemma {:induction false} CandidatoDeFila(rows: seq<FilaJne>, id: int, cargo: TipoCargo, mapa: map<int, int>, k: nat)
    requires id in IdsOrg(rows)
    requires k < |ConstruirLista(rows, id, cargo, mapa).candidatos|
    ensures var f := FilasDe(rows, id)[k];
      && f in rows && f.idOrganizacionPolitica == id
      && ConstruirLista(rows, id, cargo, mapa).candidatos[k] == MapCandidato(f, cargo)
  {
    var f := FilasDe(rows, id)[k];
    FilasDeContenido(rows, id, f);
    assert f in multiset(FilasDe(rows, id));
  }

  // ---------------------------------------------------------------- presidential tickets

  /** `candidatos.find((c) => c.numeroCandidato === n)`. */
  function Buscar(cs: seq<Candidato>, n: int): (r: Option<Candidato>)
    ensures r.None? <==> forall k | 0 <= k < |cs| :: cs[k].numeroCandidato != n
    ensures r.Some? ==> exists k | 0 <= k < |cs| ::
      (&& cs[k] == r.value
       && r.value.numeroCandidato == n
       && forall j | 0 <= j < k :: cs[j].numeroCandidato != n)
  {
    if |cs| == 0 then None
    else if cs[0].numeroCandidato == n then Some(cs[0])
    else
      var r := Buscar(cs[1..], n);
      assert forall k | 1 <= k < |cs| :: cs[k] == cs[1..][k - 1];
      r
  }

  /** A ticket: the list with its president and two vice presidents picked by candidate number. */
  function ConFormula(l: ListaElectoral): (t: ListaElectoral)
    ensures t.id == l.id && t.organizacion == l.organizacion && t.cargo == l.cargo && t.candidatos == l.candidatos
    ensures t.presidente == Buscar(l.candidatos, 1)
    ensures t.vicepresidente1 == Buscar(l.candidatos, 2)
    ensures t.vicepresidente2 == Buscar(l.candidatos, 3)
  {
    l.(presidente := Buscar(l.candidatos, 1), vicepresidente1 := Buscar(l.candidatos, 2),
       vicepresidente2 := Buscar(l.candidatos, 3))
  }

  /** The presidential tickets before sorting, in order of first appearance. */
  function FormulasSinOrden(presidentes: seq<FilaJne>, mapa: map<int, int>): (ts: seq<ListaElectoral>)
    ensures |ts| == |Organizaciones(presidentes)|
    ensures forall i | 0 <= i < |ts| :: ts[i] == ConFormula(ListasSinOrden(presidentes, FormulaPresidencial, mapa)[i])
  {
    var ls := ListasSinOrden(presidentes, FormulaPresidencial, mapa);
    seq(|ls|, i requires 0 <= i < |ls| => ConFormula(ls[i]))
  }

  /** The ticket loop of `getDatosSimulador`, then the sort by ballot position. */
  function FormulasPresidenciales(presidentes: seq<FilaJne>, mapa: map<int, int>): (ts: seq<ListaElectoral>)
    ensures SortedBy(ts, NumeroListaDe())
    ensures multiset(ts) == multiset(FormulasSinOrden(presidentes, mapa))
  {
    SortBy(FormulasSinOrden(presidentes, mapa), NumeroListaDe())
  }

  /** Tickets sharing a ballot number stay in order of first appearance. */
  lemma {:induction false} FormulasPresidencialesEstable(presidentes: seq<FilaJne>, mapa: map<int, int>, n: int)
    ensures Filter(FormulasPresidenciales(presidentes, mapa), ConClave(NumeroListaDe(), n)) ==
      Filter(FormulasSinOrden(presidentes, mapa), ConClave(NumeroListaDe(), n))
  {
    SortByStable(FormulasSinOrden(presidentes, mapa), NumeroListaDe(), n);
  }

  /** The unsorted tickets have pairwise different organization ids. */
  lemma {:induction false} FormulasSinOrdenIds(presidentes: seq<FilaJne>, mapa: map<int, int>)
    ensures InjectiveOn(FormulasSinOrden(presidentes, mapa), IdDe())
  {
    var u := FormulasSinOrden(presidentes, mapa);
    var ls := ListasSinOrden(presidentes, FormulaPresidencial, mapa);
    ListasSinOrdenIds(presidentes, FormulaPresidencial, mapa);
    forall i, j | 0 <= i < j < |u| ensures IdDe()(u[i]) != IdDe()(u[j]) {
      assert u[i].id == ls[i].id && u[j].id == ls[j].id;
    }
  }

  /** One ticket per organization, each the organization's list with its three offices filled in by number. */
  lemma {:induction false} FormulasCorrectas(presidentes: seq<FilaJne>, mapa: map<int, int>)
    ensures var ts := FormulasPresidenciales(presidentes, mapa);
      && |ts| == |Organizaciones(presidentes)|
      && InjectiveOn(ts, IdDe())
      && forall t | t in ts ::
        (&& t.id in IdsOrg(presidentes)
         && t == ConFormula(ConstruirLista(presidentes, t.id, FormulaPresidencial, mapa)))
  {
    var ts := FormulasPresidenciales(presidentes, mapa);
    var u := FormulasSinOrden(presidentes, mapa);
    assert InjectiveOn(ts, IdDe()) by {
      FormulasSinOrdenIds(presidentes, mapa);
      PermutationKeepsInjective(u, ts, IdDe());
    }
    assert |ts| == |u| by {
      assert |multiset(ts)| == |multiset(u)|;
    }
    forall t | t in ts
      ensures t.id in IdsOrg(presidentes) && t == ConFormula(ConstruirLista(presidentes, t.id, FormulaPresidencial, mapa))
    {
      assert t in multiset(u);
      FormulaSinOrdenMiembro(presidentes, mapa, t);
    }
  }

  /** Each unsorted ticket is the ticket built for its own organization. */
  lemma {:induction false} FormulaSinOrdenMiembro(presidentes: seq<FilaJne>, mapa: map<int, int>, t: ListaElectoral)
    requires t in FormulasSinOrden(presidentes, mapa)
    ensures t.id in IdsOrg(presidentes) && t == ConFormula(ConstruirLista(presidentes, t.id, FormulaPresidencial, mapa))
  {
    var u := FormulasSinOrden(presidentes, mapa);
    var i :| 0 <= i < |u| && u[i] == t;
    assert Organizaciones(presidentes)[i] in Organizaciones(presidentes);
  }

  // ---------------------------------------------------------------- the simulator data

  /** A row of the 2026 election whose status, if any, does not upper-case to "EXCLUIDO". */
  predicate Activa(f: FilaJne)
  {
    && f.idProcesoElectoral == IdProceso
    && (f.strEstadoCandidato.None? || Mayusculas(f.strEstadoCandidato.value) != "EXCLUIDO")
  }

  /**
   * The exclusion test ignores letter case: a status and its upper case decide
   * alike, and a row of the election without a status or marked "INSCRITO" stays.
   */
  lemma {:induction false} ActivaSinMayusculas(f: FilaJne)
    ensures f.strEstadoCandidato.Some? ==>
      (Activa(f) <==> Activa(f.(strEstadoCandidato := Some(Mayusculas(f.strEstadoCandidato.value)))))
    ensures f.idProcesoElectoral == IdProceso ==> Activa(f.(strEstadoCandidato := None))
    ensures f.idProcesoElectoral == IdProceso ==> Activa(f.(strEstadoCandidato := Some("INSCRITO")))
  {
    if f.strEstadoCandidato.Some? {
      var s := f.strEstadoCandidato.value;
      MayusculasSonMayusculas(s);
      MayusculasFijo(Mayusculas(s));
    }
    InscritoNoExcluido();
  }

  /** A row marked "excluido" in lower case is excluded. */
  lemma {:induction false} ExcluidoMinusculas(f: FilaJne)
    ensures !Activa(f.(strEstadoCandidato := Some("excluido")))
  {
    ExcluidoEnMayusculas("excluido");
  }

  /** A row marked "Excluido" is excluded. */
  lemma {:induction false} ExcluidoCapital(f: FilaJne)
    ensures !Activa(f.(strEstadoCandidato := Some("Excluido")))
  {
    ExcluidoEnMayusculas("Excluido");
  }

  /** A row marked "EXCLU\U{131}DO", with a dotless i, is excluded, since that letter upper-cases to I. */
  lemma {:induction false} ExcluidoSinPunto(f: FilaJne)
    ensures !Activa(f.(strEstadoCandidato := Some("EXCLU\U{131}DO")))
  {
    ExcluidoEnMayusculas("EXCLU\U{131}DO");
  }

  /** A string whose characters each upper-case to the matching letter of "EXCLUIDO" upper-cases to it. */
  lemma {:induction false} ExcluidoEnMayusculas(s: string)
    requires |s| == 8
    requires forall k | 0 <= k < 8 :: MayusculaChar(s[k]) == ["EXCLUIDO"[k]]
    ensures Mayusculas(s) == "EXCLUIDO"
  {
    MayusculasUnoAUno(s);
  }

  /** Upper-casing a string whose characters each upper-case to one letter, position by position. */
  lemma {:induction false} MayusculasUnoAUno(s: string)
    requires forall k | 0 <= k < |s| :: |MayusculaChar(s[k])| == 1
    ensures |Mayusculas(s)| == |s|
    ensures forall k | 0 <= k < |s| :: Mayusculas(s)[k] == MayusculaChar(s[k])[0]
    decreases |s|
  {
    if |s| > 0 {
      MayusculasUnoAUno(s[1..]);
      assert forall k | 0 < k < |s| :: s[1..][k - 1] == s[k];
    }
  }

  function EsActiva(): FilaJne -> bool
  {
    (f: FilaJne) => Activa(f)
  }

  /** President or either vice president. */
  function EsPresidencial(): FilaJne -> bool
  {
    (f: FilaJne) => f.idCargo == IdCargoPresidente || f.idCargo == IdCargoVp1 || f.idCargo == IdCargoVp2
  }

  /** A senator of the single national district. */
  function EsSenadorNacional(): FilaJne -> bool
  {
    (f: FilaJne) => f.idCargo == IdCargoSenador && f.strUbigeo == Some(UbigeoNacional)
  }

  /** `normalizarDep(r.strDepartamento ?? "") === dep`. */
  predicate DeDepartamento(f: FilaJne, dep: string)
  {
    NormalizarDep(f.strDepartamento.GetOr("")) == dep
  }

  /** A senator of a regional district in department `dep`; a missing ubigeo counts as regional. */
  function EsSenadorRegional(dep: string): FilaJne -> bool
  {
    (f: FilaJne) => f.idCargo == IdCargoSenador && f.strUbigeo != Some(UbigeoNacional) && DeDepartamento(f, dep)
  }

  function EsDiputado(dep: string): FilaJne -> bool
  {
    (f: FilaJne) => f.idCargo == IdCargoDiputado && DeDepartamento(f, dep)
  }

  function EsParlamentoAndino(): FilaJne -> bool
  {
    (f: FilaJne) => f.idCargo == IdCargoParlamentoAndino
  }

  /**
   * `departamento ? normalizarDep(departamento) : null`, then tested for
   * truthiness: a department counts only when its normalized name is non-empty.
   */
  function Region(departamento: Option<string>): (r: Option<string>)
    ensures r.Some? <==> departamento.Some? && NormalizarDep(departamento.value) != ""
    ensures r.Some? ==> r.value == NormalizarDep(departamento.value)
  {
    if departamento.Some? && departamento.value != "" && NormalizarDep(departamento.value) != ""
    then Some(NormalizarDep(departamento.value))
    else None
  }

  /** The active rows split by office; the regional buckets are empty without a region. */
  datatype Particion = Particion(
    presidentes: seq<FilaJne>,
    senadoresNac: seq<FilaJne>,
    senadoresReg: seq<FilaJne>,
    diputados: seq<FilaJne>,
    parlamento: seq<FilaJne>)

  function Particionar(activos: seq<FilaJne>, departamento: Option<string>): Particion
  {
    var region := Region(departamento);
    Particion(
      Filter(activos, EsPresidencial()),
      Filter(activos, EsSenadorNacional()),
      if region.Some? then Filter(activos, EsSenadorRegional(region.value)) else [],
      if region.Some? then Filter(activos, EsDiputado(region.value)) else [],
      Filter(activos, EsParlamentoAndino()))
  }

  /** `mapaNumeros`: every active organization's drawn position, or the sentinel. */
  function MapaNumeros(activos: seq<FilaJne>): (m: map<int, int>)
    ensures forall id :: id in m <==> id in IdsOrg(activos)
  {
    map id | id in Elements(IdsOrg(activos)) :: NumeroOnpe(id)
  }

  /** The list number an active organization receives is its drawn position; any other organization gets the sentinel. */
  lemma {:induction false} NumeroListaCorrecto(activos: seq<FilaJne>, id: int)
    ensures NumeroLista(MapaNumeros(activos), id) == if id in IdsOrg(activos) then NumeroOnpe(id) else SinPosicion
  {
    if id in IdsOrg(activos) {
      assert id in Elements(IdsOrg(activos));
    }
  }

  /** `getDatosSimulador`: the five rosters, from the feed rows and an optional department. */
  function GetDatosSimulador(filas: seq<FilaJne>, departamento: Option<string>): (d: DatosSimulador)
    ensures Region(departamento).None? ==> d.senadoresRegionales == [] && d.diputados == []
  {
    var activos := Filter(filas, EsActiva());
    var p := Particionar(activos, departamento);
    var mapa := MapaNumeros(activos);
    DatosSimulador(
      FormulasPresidenciales(p.presidentes, mapa),
      AgruparEnListas(p.senadoresNac, SenadorNacional, mapa),
      AgruparEnListas(p.senadoresReg, SenadorRegional, mapa),
      AgruparEnListas(p.diputados, Diputado, mapa),
      AgruparEnListas(p.parlamento, ParlamentoAndino, mapa))
  }

  /** `getCandidatosPorCargo`: the roster of one office. */
  function GetCandidatosPorCargo(filas: seq<FilaJne>, cargo: TipoCargo, departamento: Option<string>): (ls: seq<ListaElectoral>)
  {
    var d := GetDatosSimulador(filas, departamento);
    match cargo
    case FormulaPresidencial => d.formulasPresidenciales
    case SenadorNacional => d.senadoresNacionales
    case SenadorRegional => d.senadoresRegionales
    case Diputado => d.diputados
    case ParlamentoAndino => d.parlamentoAndino
  }

  /** Filtering twice keeps exactly the elements that pass both tests. */
  lemma {:induction false} EnFiltroDoble(s: seq<FilaJne>, p: FilaJne -> bool, q: FilaJne -> bool, x: FilaJne)
    ensures x in Filter(Filter(s, p), q) <==> x in s && p(x) && q(x)
  {
    FilterCount(s, p, x);
    FilterCount(Filter(s, p), q, x);
  }

  /**
   * A row lands in a bucket exactly when it is active and matches the bucket's
   * office, and, for the two regional buckets, a region was given and the row's
   * department normalizes to it.
   */
  lemma {:induction false} ParticionCorrecta(filas: seq<FilaJne>, departamento: Option<string>, f: FilaJne)
    ensures var p := Particionar(Filter(filas, EsActiva()), departamento);
      var region := Region(departamento);
      && (f in p.presidentes <==> f in filas && Activa(f) && f.idCargo in {IdCargoPresidente, IdCargoVp1, IdCargoVp2})
      && (f in p.senadoresNac <==> f in filas && Activa(f) && f.idCargo == IdCargoSenador && f.strUbigeo == Some(UbigeoNacional))
      && (f in p.senadoresReg <==>
            f in filas && Activa(f) && region.Some? && f.idCargo == IdCargoSenador
            && f.strUbigeo != Some(UbigeoNacional) && DeDepartamento(f, region.value))
      && (f in p.diputados <==>
            f in filas && Activa(f) && region.Some? && f.idCargo == IdCargoDiputado && DeDepartamento(f, region.value))
      && (f in p.parlamento <==> f in filas && Activa(f) && f.idCargo == IdCargoParlamentoAndino)
  {
    var region := Region(departamento);
    EnFiltroDoble(filas, EsActiva(), EsPresidencial(), f);
    EnFiltroDoble(filas, EsActiva(), EsSenadorNacional(), f);
    EnFiltroDoble(filas, EsActiva(), EsParlamentoAndino(), f);
    if region.Some? {
      EnFiltroDoble(filas, EsActiva(), EsSenadorRegional(region.value), f);
      EnFiltroDoble(filas, EsActiva(), EsDiputado(region.value), f);
    }
  }

  /**
   * What every list shown for office `cargo` satisfies: it is of that office,
   * and each of its candidates belongs to it and is not an excluded candidate.
   */
  ghost predicate ListaSana(l: ListaElectoral, cargo: TipoCargo)
  {
    && l.cargo == cargo
    && forall k | 0 <= k < |l.candidatos| ::
      (&& l.candidatos[k].cargo == cargo
       && l.candidatos[k].idOrganizacion == l.id
       && Mayusculas(l.candidatos[k].estado) != "EXCLUIDO")
  }

  /** The list of an organization whose rows are all active is sound. */
  lemma {:induction false} ConstruirListaSana(rows: seq<FilaJne>, id: int, cargo: TipoCargo, mapa: map<int, int>)
    requires id in IdsOrg(rows)
    requires forall f | f in rows :: Activa(f)
    ensures ListaSana(ConstruirLista(rows, id, cargo, mapa), cargo)
  {
    var l := ConstruirLista(rows, id, cargo, mapa);
    forall k | 0 <= k < |l.candidatos|
      ensures && l.candidatos[k].cargo == cargo
              && l.candidatos[k].idOrganizacion == l.id
              && Mayusculas(l.candidatos[k].estado) != "EXCLUIDO"
    {
      CandidatoDeFila(rows, id, cargo, mapa, k);
      InscritoNoExcluido();
    }
  }

  /** The status a row without one is shown with is not the excluded status. */
  lemma InscritoNoExcluido()
    ensures Mayusculas("INSCRITO") != "EXCLUIDO"
  {
    assert "INSCRITO"[1..] == "NSCRITO";
    assert Mayusculas("INSCRITO") == MayusculaChar('I') + Mayusculas("NSCRITO");
    assert MayusculaChar('I') == "I";
    assert Mayusculas("INSCRITO")[0] == 'I' != "EXCLUIDO"[0];
  }

  /** Grouping active rows gives only sound lists. */
  lemma {:induction false} AgruparEnListasSana(rows: seq<FilaJne>, cargo: TipoCargo, mapa: map<int, int>)
    requires forall f | f in rows :: Activa(f)
    ensures forall l | l in AgruparEnListas(rows, cargo, mapa) :: ListaSana(l, cargo)
  {
    forall l | l in AgruparEnListas(rows, cargo, mapa) ensures ListaSana(l, cargo) {
      AgruparEnListasMiembros(rows, cargo, mapa, l);
      ConstruirListaSana(rows, l.id, cargo, mapa);
    }
  }

  /** Tickets built from active rows are sound, and each office holds the candidate with its number. */
  lemma {:induction false} FormulasSanas(presidentes: seq<FilaJne>, mapa: map<int, int>)
    requires forall f | f in presidentes :: Activa(f)
    ensures forall t | t in FormulasPresidenciales(presidentes, mapa) ::
      (&& ListaSana(t, FormulaPresidencial)
       && (t.presidente.Some? ==> t.presidente.value in t.candidatos && t.presidente.value.numeroCandidato == 1)
       && (t.vicepresidente1.Some? ==> t.vicepresidente1.value in t.candidatos && t.vicepresidente1.value.numeroCandidato == 2)
       && (t.vicepresidente2.Some? ==> t.vicepresidente2.value in t.candidatos && t.vicepresidente2.value.numeroCandidato == 3))
  {
    FormulasCorrectas(presidentes, mapa);
    forall t | t in FormulasPresidenciales(presidentes, mapa) ensures ListaSana(t, FormulaPresidencial) {
      ConstruirListaSana(presidentes, t.id, FormulaPresidencial, mapa);
    }
  }

  /**
   * Whatever the feed and the department, every list the simulator shows for
   * an office is of that office and lists no excluded candidate.
   */
  lemma {:induction false} GetCandidatosPorCargoSanos(filas: seq<FilaJne>, cargo: TipoCargo, departamento: Option<string>)
    ensures forall l | l in GetCandidatosPorCargo(filas, cargo, departamento) :: ListaSana(l, cargo)
  {
    var activos := Filter(filas, EsActiva());
    var p := Particionar(activos, departamento);
    var mapa := MapaNumeros(activos);
    assert forall f | f in activos :: Activa(f);
    match cargo
    case FormulaPresidencial => FormulasSanas(p.presidentes, mapa);
    case SenadorNacional => AgruparEnListasSana(p.senadoresNac, SenadorNacional, mapa);
    case SenadorRegional => AgruparEnListasSana(p.senadoresReg, SenadorRegional, mapa);
    case Diputado => AgruparEnListasSana(p.diputados, Diputado, mapa);
    case ParlamentoAndino => AgruparEnListasSana(p.parlamento, ParlamentoAndino, mapa);
  }

  /** An organization of a subset of the rows is an organization of the rows. */
  lemma {:induction false} OrganizacionDeSubconjunto(rows: seq<FilaJne>, activos: seq<FilaJne>, id: int)
    requires forall f | f in rows :: f in activos
    requires id in IdsOrg(rows)
    ensures id in IdsOrg(activos)
  {
    var i :| 0 <= i < |rows| && IdsOrg(rows)[i] == id;
    assert rows[i] in activos;
    var j :| 0 <= j < |activos| && activos[j] == rows[i];
    assert IdsOrg(activos)[j] == id;
  }

  /** A list built from active rows carries its organization's drawn position. */
  lemma {:induction false} ConstruirListaOnpe(rows: seq<FilaJne>, activos: seq<FilaJne>, id: int, cargo: TipoCargo)
    requires forall f | f in rows :: f in activos
    requires id in IdsOrg(rows)
    ensures ConstruirLista(rows, id, cargo, MapaNumeros(activos)).organizacion.numeroLista == NumeroOnpe(id)
  {
    OrganizacionDeSubconjunto(rows, activos, id);
    NumeroListaCorrecto(activos, id);
  }

  /** Lists grouped from active rows carry their organizations' drawn positions. */
  lemma {:induction false} AgruparEnListasOnpe(rows: seq<FilaJne>, activos: seq<FilaJne>, cargo: TipoCargo)
    requires forall f | f in rows :: f in activos
    ensures forall l | l in AgruparEnListas(rows, cargo, MapaNumeros(activos)) ::
      l.organizacion.numeroLista == NumeroOnpe(l.id)
  {
    forall l | l in AgruparEnListas(rows, cargo, MapaNumeros(activos))
      ensures l.organizacion.numeroLista == NumeroOnpe(l.id)
    {
      AgruparEnListasMiembros(rows, cargo, MapaNumeros(activos), l);
      ConstruirListaOnpe(rows, activos, l.id, cargo);
    }
  }

  /** Tickets built from active rows carry their organizations' drawn positions. */
  lemma {:induction false} FormulasOnpe(rows: seq<FilaJne>, activos: seq<FilaJne>)
    requires forall f | f in rows :: f in activos
    ensures forall t | t in FormulasPresidenciales(rows, MapaNumeros(activos)) ::
      t.organizacion.numeroLista == NumeroOnpe(t.id)
  {
    FormulasCorrectas(rows, MapaNumeros(activos));
    forall t | t in FormulasPresidenciales(rows, MapaNumeros(activos))
      ensures t.organizacion.numeroLista == NumeroOnpe(t.id)
    {
      ConstruirListaOnpe(rows, activos, t.id, FormulaPresidencial);
    }
  }

  /**
   * Every roster the simulator shows is in ballot order, and each list's
   * number is its organization's drawn position (999 for an organization
   * outside the draw, which therefore goes last).
   */
  lemma {:induction false} GetCandidatosPorCargoOrdenOnpe(filas: seq<FilaJne>, cargo: TipoCargo, departamento: Option<string>)
    ensures var ls := GetCandidatosPorCargo(filas, cargo, departamento);
      && SortedBy(ls, NumeroListaDe())
      && forall l | l in ls :: l.organizacion.numeroLista == NumeroOnpe(l.id)
  {
    var activos := Filter(filas, EsActiva());
    var p := Particionar(activos, departamento);
    match cargo
    case FormulaPresidencial => FormulasOnpe(p.presidentes, activos);
    case SenadorNacional => AgruparEnListasOnpe(p.senadoresNac, activos, SenadorNacional);
    case SenadorRegional => AgruparEnListasOnpe(p.senadoresReg, activos, SenadorRegional);
    case Diputado => AgruparEnListasOnpe(p.diputados, activos, Diputado);
    case ParlamentoAndino => AgruparEnListasOnpe(p.parlamento, activos, ParlamentoAndino);
  }
}
