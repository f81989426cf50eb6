/**
 * The electoral datatypes of the simulator: offices, the voter's per-column
 * selection, the ballot, and the validation result.
 */
module Types {
  import opened Wrappers

  /** The five ballot columns, one per office. */
  datatype TipoCargo =
    | FormulaPresidencial
    | SenadorNacional
    | SenadorRegional
    | Diputado
    | ParlamentoAndino

  /** The four columns that carry preference marks (every office but the presidential ticket). */
  type Columna = t: TipoCargo | t != FormulaPresidencial witness SenadorNacional

  /** The order in which the validator visits the columns, and in which it reports them. */
  const OrdenColumnas: seq<Columna> := [SenadorNacional, SenadorRegional, Diputado, ParlamentoAndino]

  /** Position of a column in `OrdenColumnas`. */
  function Indice(c: Columna): (i: nat)
    ensures i < |OrdenColumnas| && OrdenColumnas[i] == c
  {
    match c
    case SenadorNacional => 0
    case SenadorRegional => 1
    case Diputado => 2
    case ParlamentoAndino => 3
  }

  /** A chosen list plus the preference numbers written next to it, in marking order. */
  datatype SeleccionColumna = SeleccionColumna(idLista: int, preferencias: seq<int>)

  /** The ballot: the presidential ticket holds only a list id; the other columns a selection. */
  datatype VotoCedula = VotoCedula(
    formulaPresidencial: Option<int>,
    senadorNacional: Option<SeleccionColumna>,
    senadorRegional: Option<SeleccionColumna>,
    diputado: Option<SeleccionColumna>,
    parlamentoAndino: Option<SeleccionColumna>)
  {
    /** The selection held in column `c`. */
    function Sel(c: Columna): Option<SeleccionColumna>
    {
      match c
      case SenadorNacional => senadorNacional
      case SenadorRegional => senadorRegional
      case Diputado => diputado
      case ParlamentoAndino => parlamentoAndino
    }

    /** The same ballot with column `c` replaced by `o` (`{ ...prev, [columna]: o }`, or `delete` when `o` is None). */
    function WithSel(c: Columna, o: Option<SeleccionColumna>): (v: VotoCedula)
      ensures v.Sel(c) == o
      ensures forall d: Columna | d != c :: v.Sel(d) == Sel(d)
      ensures v.formulaPresidencial == formulaPresidencial
    {
      match c
      case SenadorNacional => this.(senadorNacional := o)
      case SenadorRegional => this.(senadorRegional := o)
      case Diputado => this.(diputado := o)
      case ParlamentoAndino => this.(parlamentoAndino := o)
    }
  }

  /** The empty ballot `{}`. */
  const VotoVacio: VotoCedula := VotoCedula(None, None, None, None, None)

  /** Status of a column or of the whole ballot. `Impugnado` exists in the type but is never produced. */
  datatype EstadoVoto = Valido | Nulo | Blanco | Impugnado

  /** Why a column is null (the structured content of the original's motive strings). */
  datatype Motivo =
    | Duplicado
    | ExcedeMaximo(marcadas: int, maximo: int)
    | NumeroInvalido

  datatype ResultadoColumna = ResultadoColumna(estado: EstadoVoto, motivo: Option<Motivo>)

  /** One entry of the ballot-level motive list. */
  datatype MotivoCedula =
    | CedulaEnBlanco
    | EnColumna(columna: Columna, motivo: Motivo)

  /** The data behind the summary sentence shown to the voter. */
  datatype Resumen =
    | ResumenBlanco
    | ResumenNulo(columnasNulas: seq<Columna>, motivos: seq<MotivoCedula>)
    | ResumenValido(columnasMarcadas: seq<TipoCargo>)

  datatype ResultadoCedula = ResultadoCedula(
    estado: EstadoVoto,
    columnas: map<Columna, ResultadoColumna>,
    formulaPresidencial: Option<ResultadoColumna>,
    motivos: seq<MotivoCedula>,
    resumen: Resumen)

  /** One entry of the column configuration table (only the field the logic reads). */
  datatype ConfigColumna = ConfigColumna(tipo: TipoCargo, maxPreferenciales: int)

  /** The organization that sponsors a list; `numeroLista` is its position on the ballot. */
  datatype OrganizacionPolitica = OrganizacionPolitica(
    id: int,
    nombre: string,
    sigla: string,
    colorPrimario: string,
    numeroLista: int)

  /** A candidate as shown by the simulator. `estado` keeps the feed's raw status text. */
  datatype Candidato = Candidato(
    idHojaVida: int,
    nombres: string,
    apellidoPaterno: string,
    apellidoMaterno: string,
    nombreCompleto: string,
    cargo: TipoCargo,
    numeroCandidato: int,
    fotoUrl: Option<string>,
    idOrganizacion: int,
    estado: string,
    departamento: Option<string>,
    dni: Option<string>)

  /** The candidates of one organization for one office; the three ticket slots are only filled for the presidential ticket. */
  datatype ListaElectoral = ListaElectoral(
    id: int,
    organizacion: OrganizacionPolitica,
    cargo: TipoCargo,
    candidatos: seq<Candidato>,
    presidente: Option<Candidato>,
    vicepresidente1: Option<Candidato>,
    vicepresidente2: Option<Candidato>)

  /** The five roster sequences the simulator renders. */
  datatype DatosSimulador = DatosSimulador(
    formulasPresidenciales: seq<ListaElectoral>,
    senadoresNacionales: seq<ListaElectoral>,
    senadoresRegionales: seq<ListaElectoral>,
    diputados: seq<ListaElectoral>,
    parlamentoAndino: seq<ListaElectoral>)
}
