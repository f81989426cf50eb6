/**
 * The countdown to election day (`calcularTiempoRestante`). The clock is not
 * modelled: the milliseconds left until the election are a parameter.
 */
module Countdown {

  const MsPorSegundo: int := 1000
  const MsPorMinuto: int := 60 * MsPorSegundo
  const MsPorHora: int := 60 * MsPorMinuto
  const MsPorDia: int := 24 * MsPorHora

  /** `TimeLeft`: whole days, hours, minutes and seconds left, or `pasaron` once the moment has come. */
  datatype TiempoRestante = TiempoRestante(dias: int, horas: int, minutos: int, segundos: int, pasaron: bool)

  /** The milliseconds a reading stands for. */
  function Milisegundos(t: TiempoRestante): int
  {
    t.dias * MsPorDia + t.horas * MsPorHora + t.minutos * MsPorMinuto + t.segundos * MsPorSegundo
  }

  /** A reading whose components are in clock range. */
  predicate EnRango(t: TiempoRestante)
  {
    t.dias >= 0 && 0 <= t.horas < 24 && 0 <= t.minutos < 60 && 0 <= t.segundos < 60
  }

  /**
   * `calcularTiempoRestante` given `diff`, the election time minus now in
   * milliseconds. For positive `diff` the divisions in the original floor
   * non-negative quotients, where JavaScript and Dafny agree.
   */
  function CalcularTiempoRestante(diff: int): (t: TiempoRestante)
    ensures diff <= 0 <==> t.pasaron
    ensures t.pasaron ==> Milisegundos(t) == 0
    ensures EnRango(t)
    ensures !t.pasaron ==> Milisegundos(t) <= diff < Milisegundos(t) + MsPorSegundo
  {
    if diff <= 0 then TiempoRestante(0, 0, 0, 0, true)
    else
      var t := TiempoRestante(
        diff / MsPorDia,
        (diff % MsPorDia) / MsPorHora,
        (diff % MsPorHora) / MsPorMinuto,
        (diff % MsPorMinuto) / MsPorSegundo,
        false);
      DescomposicionExacta(diff);
      t
  }

  /** Days, hours, minutes and seconds split a positive duration exactly, up to the dropped milliseconds. */
  lemma {:induction false} DescomposicionExacta(diff: int)
    requires diff > 0
    ensures var t := TiempoRestante(
        diff / MsPorDia,
        (diff % MsPorDia) / MsPorHora,
        (diff % MsPorHora) / MsPorMinuto,
        (diff % MsPorMinuto) / MsPorSegundo,
        false);
      EnRango(t) && Milisegundos(t) <= diff < Milisegundos(t) + MsPorSegundo
  {
    var d := diff / MsPorDia;
    var rd := diff % MsPorDia;
    var h := rd / MsPorHora;
    var rh := rd % MsPorHora;
    assert diff % MsPorHora == rh by { ModAnidado(diff, MsPorHora, 24); }
    var m := rh / MsPorMinuto;
    var rm := rh % MsPorMinuto;
    assert diff % MsPorMinuto == rm by {
      ModAnidado(diff, MsPorHora, 24);
      ModAnidado(diff, MsPorMinuto, 60);
      ModAnidado(rd, MsPorMinuto, 60);
    }
    var s := rm / MsPorSegundo;
    assert diff == d * MsPorDia + rd;
    assert rd == h * MsPorHora + rh;
    assert rh == m * MsPorMinuto + rm;
    assert rm == s * MsPorSegundo + rm % MsPorSegundo;
  }

  /** Taking the remainder by a multiple of `b` first does not change the remainder by `b`. */
  lemma {:induction false} ModAnidado(x: int, b: int, k: int)
    requires b > 0 && k > 0
    ensures x % (b * k) % b == x % b
  {
    var q := x / (b * k);
    var r := x % (b * k);
    assert x == q * (b * k) + r;
    assert x == (q * k) * b + r;
    ModSumaMultiplo(r, q * k, b);
  }

  /** Adding a multiple of `b` leaves the remainder by `b` unchanged. */
  lemma {:induction false} ModSumaMultiplo(r: int, n: int, b: int)
    requires b > 0
    ensures (n * b + r) % b == r % b
  {
    var q := r / b;
    var m := r % b;
    var x := n * b + r;
    assert x == (n + q) * b + m;
    DigitoUnico(x / b, x % b, n + q, m, b);
  }

  /**
   * The reading is the only one in clock range that covers `diff` to the
   * second: any in-range reading within a second below `diff` is the one
   * computed.
   */
  lemma {:induction false} LecturaUnica(diff: int, t: TiempoRestante)
    requires diff > 0 && !t.pasaron && EnRango(t)
    requires Milisegundos(t) <= diff < Milisegundos(t) + MsPorSegundo
    ensures t == CalcularTiempoRestante(diff)
  {
    var u := CalcularTiempoRestante(diff);
    assert Segundos(t) == Segundos(u) by {
      EnSegundos(t);
      EnSegundos(u);
      MismoSegundo(Segundos(t), Segundos(u), diff);
    }
    MixtoUnico(t.dias, t.horas, t.minutos, t.segundos, u.dias, u.horas, u.minutos, u.segundos);
  }

  /** The whole seconds a reading stands for. */
  function Segundos(t: TiempoRestante): int
  {
    ((t.dias * 24 + t.horas) * 60 + t.minutos) * 60 + t.segundos
  }

  lemma {:induction false} EnSegundos(t: TiempoRestante)
    ensures Milisegundos(t) == Segundos(t) * MsPorSegundo
  {
  }

  /** Two whole-second counts whose windows both contain `diff` are equal. */
  lemma {:induction false} MismoSegundo(a: int, b: int, diff: int)
    requires a * MsPorSegundo <= diff < a * MsPorSegundo + MsPorSegundo
    requires b * MsPorSegundo <= diff < b * MsPorSegundo + MsPorSegundo
    ensures a == b
  {
  }

  /** Mixed-radix digits (days, 24 hours, 60 minutes, 60 seconds) are unique. */
  lemma {:induction false} MixtoUnico(d1: int, h1: int, m1: int, s1: int, d2: int, h2: int, m2: int, s2: int)
    requires 0 <= h1 < 24 && 0 <= m1 < 60 && 0 <= s1 < 60
    requires 0 <= h2 < 24 && 0 <= m2 < 60 && 0 <= s2 < 60
    requires ((d1 * 24 + h1) * 60 + m1) * 60 + s1 == ((d2 * 24 + h2) * 60 + m2) * 60 + s2
    ensures d1 == d2 && h1 == h2 && m1 == m2 && s1 == s2
  {
    DigitoUnico((d1 * 24 + h1) * 60 + m1, s1, (d2 * 24 + h2) * 60 + m2, s2, 60);
    DigitoUnico(d1 * 24 + h1, m1, d2 * 24 + h2, m2, 60);
    DigitoUnico(d1, h1, d2, h2, 24);
  }

  /** The last digit in base `b` and the rest are determined by the number. */
  lemma {:induction false} DigitoUnico(q1: int, r1: int, q2: int, r2: int, b: int)
    requires b > 0 && 0 <= r1 < b && 0 <= r2 < b
    requires q1 * b + r1 == q2 * b + r2
    ensures q1 == q2 && r1 == r2
  {
    var k := q1 - q2;
    assert (k + 1) * b == b + (r2 - r1);
    assert (1 - k) * b == b - (r2 - r1);
    FactorPositivo(k + 1, b);
    FactorPositivo(1 - k, b);
  }

  /** A product with a positive factor is positive only when the other factor is. */
  lemma {:induction false} FactorPositivo(x: int, b: int)
    requires b > 0 && x * b > 0
    ensures x > 0
  {
  }

  // ---------------------------------------------------------------- the election instant

  /** Days of the week. */
  datatype DiaSemana = Lunes | Martes | Miercoles | Jueves | Viernes | Sabado | Domingo

  /** A civil date of the proleptic Gregorian calendar. */
  datatype Fecha = Fecha(anio: int, mes: int, dia: int)

  predicate FechaBienFormada(f: Fecha)
  {
    1 <= f.mes <= 12 && 1 <= f.dia <= 31
  }

  /**
   * Days from 1970-01-01 to `f` (negative before it), as JavaScript's `Date`
   * counts them: years start in March so that the leap day ends the year, and
   * whole 400-year eras are 146097 days.
   */
  function DiasDesdeEpoca(f: Fecha): int
    requires FechaBienFormada(f)
  {
    var y := if f.mes <= 2 then f.anio - 1 else f.anio;
    var era := y / 400;
    var yoe := y % 400;
    var mp := if f.mes > 2 then f.mes - 3 else f.mes + 9;
    var doy := (153 * mp + 2) / 5 + f.dia - 1;
    var doe := yoe * 365 + yoe / 4 - yoe / 100 + doy;
    era * 146097 + doe - 719468
  }

  /** The count starts at the epoch: 1970-01-01 is day 0. */
  lemma {:induction false} EpocaEsCero()
    ensures DiasDesdeEpoca(Fecha(1970, 1, 1)) == 0
  {
    assert 1969 / 400 == 4 && 1969 % 400 == 369;
    assert (153 * 10 + 2) / 5 == 306;
    assert 369 * 365 + 369 / 4 - 369 / 100 + 306 == 135080;
  }

  /** The count advances by one from each day of a month to the next. */
  lemma {:induction false} DiaSiguienteEnMes(f: Fecha)
    requires FechaBienFormada(f) && f.dia < 31
    ensures DiasDesdeEpoca(f.(dia := f.dia + 1)) == DiasDesdeEpoca(f) + 1
  {
  }

  /** The weekday of a day count; 1970-01-01 was a Thursday. */
  function DiaDeLaSemana(dias: int): DiaSemana
  {
    match dias % 7
    case 0 => Jueves
    case 1 => Viernes
    case 2 => Sabado
    case 3 => Domingo
    case 4 => Lunes
    case 5 => Martes
    case _ => Miercoles
  }

  /** The day after a given weekday. */
  function Siguiente(w: DiaSemana): DiaSemana
  {
    match w
    case Lunes => Martes
    case Martes => Miercoles
    case Miercoles => Jueves
    case Jueves => Viernes
    case Viernes => Sabado
    case Sabado => Domingo
    case Domingo => Lunes
  }

  /** Consecutive day counts fall on consecutive weekdays, so the week repeats every seven days. */
  lemma {:induction false} DiaDeLaSemanaSiguiente(dias: int)
    ensures DiaDeLaSemana(dias + 1) == Siguiente(DiaDeLaSemana(dias))
  {
    var r := dias % 7;
    assert dias == (dias / 7) * 7 + r;
    assert (dias + 1) % 7 == if r == 6 then 0 else r + 1 by {
      ModSumaMultiplo(r + 1, dias / 7, 7);
      if r == 6 {
        ModSumaMultiplo(0, dias / 7 + 1, 7);
      }
    }
  }

  /** `FECHA_ELECCIONES` as written: the 13th of April 2026. */
  const FechaEscrita: Fecha := Fecha(2026, 4, 13)

  /** Election day as the Sunday the accompanying comment's weekday names: the 12th of April 2026. */
  const FechaEleccion: Fecha := Fecha(2026, 4, 12)

  /** The corrected date is day 20555 of the count, a Sunday. */
  lemma {:induction false} FechaEleccionEsDomingo()
    ensures DiasDesdeEpoca(FechaEleccion) == 20555
    ensures DiaDeLaSemana(DiasDesdeEpoca(FechaEleccion)) == Domingo
  {
    assert 2026 / 400 == 5 && 2026 % 400 == 26;
    assert (153 * 1 + 2) / 5 == 31;
    assert 26 * 365 + 26 / 4 - 26 / 100 + 42 == 9538;
    assert 5 * 146097 + 9538 - 719468 == 20555;
    assert 20555 % 7 == 3;
  }

  /** The written date is the Monday after, although the comment beside it calls it a Sunday. */
  lemma {:induction false} FechaEscritaEsLunes()
    ensures DiasDesdeEpoca(FechaEscrita) == DiasDesdeEpoca(FechaEleccion) + 1
    ensures DiaDeLaSemana(DiasDesdeEpoca(FechaEscrita)) == Lunes
  {
    DiaSiguienteEnMes(FechaEleccion);
    FechaEleccionEsDomingo();
    DiaDeLaSemanaSiguiente(20555);
  }

  /** 08:00 at UTC-5 on day `f`, in milliseconds since the epoch: 13:00 UTC. */
  function InstanteApertura(f: Fecha): (ms: int)
    requires FechaBienFormada(f)
    ensures ms % MsPorDia == 13 * MsPorHora
    ensures ms / MsPorDia == DiasDesdeEpoca(f)
  {
    DivisionExacta(DiasDesdeEpoca(f), 13 * MsPorHora, MsPorDia);
    DiasDesdeEpoca(f) * MsPorDia + 13 * MsPorHora
  }

  /** Quotient and remainder of `q * b + r` when `r` is a digit in base `b`. */
  lemma {:induction false} DivisionExacta(q: int, r: int, b: int)
    requires b > 0 && 0 <= r < b
    ensures (q * b + r) / b == q && (q * b + r) % b == r
  {
    var x := q * b + r;
    DigitoUnico(x / b, x % b, q, r, b);
  }

  /**
   * `calcularTiempoRestante` at clock reading `ahora` (milliseconds since the
   * epoch), counting down to the opening of the polls on day `f`.
   */
  function TiempoRestanteHasta(f: Fecha, ahora: int): (t: TiempoRestante)
    requires FechaBienFormada(f)
    ensures t.pasaron <==> ahora >= InstanteApertura(f)
    ensures EnRango(t)
    ensures !t.pasaron ==>
      ahora + Milisegundos(t) <= InstanteApertura(f) < ahora + Milisegundos(t) + MsPorSegundo
  {
    CalcularTiempoRestante(InstanteApertura(f) - ahora)
  }

  /** The countdown as written, to the Monday. */
  function TiempoRestanteEscrito(ahora: int): (t: TiempoRestante)
    ensures t.pasaron <==> ahora >= InstanteApertura(FechaEscrita)
    ensures EnRango(t)
    ensures !t.pasaron ==>
      ahora + Milisegundos(t) <= InstanteApertura(FechaEscrita) < ahora + Milisegundos(t) + MsPorSegundo
  {
    TiempoRestanteHasta(FechaEscrita, ahora)
  }

  /** The countdown to the Sunday the comment names. */
  function TiempoRestanteDesde(ahora: int): (t: TiempoRestante)
    ensures t.pasaron <==> ahora >= InstanteApertura(FechaEleccion)
    ensures EnRango(t)
    ensures !t.pasaron ==>
      ahora + Milisegundos(t) <= InstanteApertura(FechaEleccion) < ahora + Milisegundos(t) + MsPorSegundo
  {
    TiempoRestanteHasta(FechaEleccion, ahora)
  }

  /** Before the Sunday opening, the countdown as written shows one day more than the corrected one, and the same hours, minutes and seconds. */
  lemma {:induction false} EscritoUnDiaDeMas(ahora: int)
    requires ahora < InstanteApertura(FechaEleccion)
    ensures var t := TiempoRestanteDesde(ahora);
      TiempoRestanteEscrito(ahora) == t.(dias := t.dias + 1)
  {
    FechaEscritaEsLunes();
    var t := TiempoRestanteDesde(ahora);
    var u := t.(dias := t.dias + 1);
    assert InstanteApertura(FechaEscrita) == InstanteApertura(FechaEleccion) + MsPorDia;
    assert Milisegundos(u) == Milisegundos(t) + MsPorDia;
    LecturaUnica(InstanteApertura(FechaEscrita) - ahora, u);
  }
}
