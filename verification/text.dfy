/**
 * The string operations the roster assembly uses, over explicit character
 * tables: JavaScript's whitespace class (`\s`, `trim`), upper and lower case and
 * canonical decomposition restricted to Basic Latin and Latin-1 (upper case also
 * covers the dotless i and the long s), splitting on whitespace runs, and
 * decimal digit strings.
 */
module Text {
  import opened Seqs

  /** JavaScript's `\s` class, which is also what `String.prototype.trim` strips. */
  predicate EsEspacio(c: char)
  {
    || c == '\t' || c == '\n' || c == '\U{B}' || c == '\U{C}' || c == '\r' || c == ' '
    || c == '\U{A0}' || c == '\U{1680}' || ('\U{2000}' <= c <= '\U{200A}')
    || c == '\U{2028}' || c == '\U{2029}' || c == '\U{202F}' || c == '\U{205F}'
    || c == '\U{3000}' || c == '\U{FEFF}'
  }

  function NoEsEspacio(): char -> bool
  {
    c => !EsEspacio(c)
  }

  /** The visible characters of a string, in order. */
  function Visibles(s: string): string
  {
    Filter(s, NoEsEspacio())
  }

  lemma {:induction false} VisiblesAppend(a: string, b: string)
    ensures Visibles(a + b) == Visibles(a) + Visibles(b)
  {
    FilterAppend(a, b, NoEsEspacio());
  }

  /** A string of whitespace has no visible character. */
  lemma {:induction false} VisiblesDeEspacios(s: string)
    requires forall k | 0 <= k < |s| :: EsEspacio(s[k])
    ensures Visibles(s) == []
    decreases |s|
  {
    if |s| > 0 {
      VisiblesDeEspacios(s[1..]);
    }
  }

  /** A string without whitespace is its own visible part. */
  lemma {:induction false} VisiblesSinEspacios(s: string)
    requires forall k | 0 <= k < |s| :: !EsEspacio(s[k])
    ensures Visibles(s) == s
  {
    FilterAll(s, NoEsEspacio());
  }

  /** `trimStart`: drops the leading whitespace. */
  function TrimStart(s: string): (r: string)
    ensures |r| <= |s| && r == s[|s| - |r|..]
    ensures forall k | 0 <= k < |s| - |r| :: EsEspacio(s[k])
    ensures |r| > 0 ==> !EsEspacio(r[0])
    decreases |s|
  {
    if |s| > 0 && EsEspacio(s[0]) then TrimStart(s[1..]) else s
  }

  /** `trimEnd`: drops the trailing whitespace. */
  function TrimEnd(s: string): (r: string)
    ensures |r| <= |s| && r == s[..|r|]
    ensures forall k | |r| <= k < |s| :: EsEspacio(s[k])
    ensures |r| > 0 ==> !EsEspacio(r[|r| - 1])
    decreases |s|
  {
    if |s| > 0 && EsEspacio(s[|s| - 1]) then TrimEnd(s[..|s| - 1]) else s
  }

  /** Where `trim`'s result starts in its argument. */
  function InicioTrim(s: string): (i: nat)
    ensures i <= |s|
  {
    |s| - |TrimStart(s)|
  }

  /** `trim`: the slice of `s` left after dropping whitespace at both ends. */
  function Trim(s: string): (r: string)
    ensures InicioTrim(s) + |r| <= |s| && r == s[InicioTrim(s)..InicioTrim(s) + |r|]
    ensures |r| > 0 ==> !EsEspacio(r[0]) && !EsEspacio(r[|r| - 1])
  {
    var a := TrimStart(s);
    var r := TrimEnd(a);
    RebanadaDeSufijo(s, InicioTrim(s), |r|);
    r
  }

  /** A prefix of the suffix starting at `i` is the slice of `s` starting at `i`. */
  lemma RebanadaDeSufijo(s: string, i: nat, m: nat)
    requires i + m <= |s|
    ensures s[i..][..m] == s[i..i + m]
  {
  }

  /** The visible part of a string grows by its first character only when that character is visible. */
  lemma {:induction false} VisiblesCons(x: char, t: string)
    ensures Visibles([x] + t) == (if EsEspacio(x) then [] else [x]) + Visibles(t)
  {
    var s := [x] + t;
    assert s[0] == x && s[1..] == t;
  }

  /** The same at the other end. */
  lemma {:induction false} VisiblesSnoc(t: string, x: char)
    ensures Visibles(t + [x]) == Visibles(t) + (if EsEspacio(x) then [] else [x])
  {
    VisiblesAppend(t, [x]);
    VisiblesCons(x, []);
    assert [x] + [] == [x];
  }

  /** `trimStart` removes whitespace only. */
  lemma {:induction false} TrimStartVisibles(s: string)
    ensures Visibles(TrimStart(s)) == Visibles(s)
    decreases |s|
  {
    if |s| > 0 && EsEspacio(s[0]) {
      TrimStartVisibles(s[1..]);
      VisiblesCons(s[0], s[1..]);
      assert [s[0]] + s[1..] == s;
    }
  }

  /** `trimEnd` removes whitespace only. */
  lemma {:induction false} TrimEndVisibles(s: string)
    ensures Visibles(TrimEnd(s)) == Visibles(s)
    decreases |s|
  {
    if |s| > 0 && EsEspacio(s[|s| - 1]) {
      var t := s[..|s| - 1];
      TrimEndVisibles(t);
      VisiblesSnoc(t, s[|s| - 1]);
      assert t + [s[|s| - 1]] == s;
    }
  }

  /** Trimming removes whitespace only. */
  lemma {:induction false} TrimVisibles(s: string)
    ensures Visibles(Trim(s)) == Visibles(s)
  {
    TrimStartVisibles(s);
    TrimEndVisibles(TrimStart(s));
  }

  /** `replace(/\s+/g, " ")`: every maximal whitespace run becomes one space. */
  function Colapsar(s: string): string
    decreases |s|
  {
    if |s| == 0 then ""
    else if EsEspacio(s[0]) then " " + Colapsar(TrimStart(s))
    else [s[0]] + Colapsar(s[1..])
  }

  /** After collapsing, the only whitespace is single spaces, no two of them adjacent, and a leading space comes from leading whitespace. */
  lemma {:induction false} ColapsarForma(s: string)
    ensures forall k | 0 <= k < |Colapsar(s)| :: EsEspacio(Colapsar(s)[k]) ==> Colapsar(s)[k] == ' '
    ensures forall k | 0 <= k < |Colapsar(s)| - 1 :: !(EsEspacio(Colapsar(s)[k]) && EsEspacio(Colapsar(s)[k + 1]))
    ensures |Colapsar(s)| > 0 && EsEspacio(Colapsar(s)[0]) ==> |s| > 0 && EsEspacio(s[0])
    decreases |s|
  {
    if |s| > 0 {
      var r := Colapsar(s);
      var t := if EsEspacio(s[0]) then TrimStart(s) else s[1..];
      ColapsarForma(t);
      var rest := Colapsar(t);
      assert r == [r[0]] + rest;
      assert EsEspacio(s[0]) ==> |rest| == 0 || !EsEspacio(rest[0]);
      forall k | 0 <= k < |r| ensures EsEspacio(r[k]) ==> r[k] == ' ' {
        if k > 0 { assert r[k] == rest[k - 1]; }
      }
      forall k | 0 <= k < |r| - 1 ensures !(EsEspacio(r[k]) && EsEspacio(r[k + 1])) {
        if k > 0 { assert r[k] == rest[k - 1] && r[k + 1] == rest[k]; }
      }
    }
  }

  /** Collapsing leaves the visible characters as they were. */
  lemma {:induction false} ColapsarVisibles(s: string)
    ensures Visibles(Colapsar(s)) == Visibles(s)
    decreases |s|
  {
    if |s| > 0 {
      if EsEspacio(s[0]) {
        ColapsarVisibles(TrimStart(s));
        ColapsarVisiblesEspacio(s);
      } else {
        ColapsarVisibles(s[1..]);
        ColapsarVisiblesLetra(s);
      }
    }
  }

  /** A leading space adds no visible character. */
  lemma {:induction false} VisiblesTrasEspacio(x: string)
    ensures Visibles(" " + x) == Visibles(x)
  {
    VisiblesAppend(" ", x);
    VisiblesDeEspacios(" ");
  }

  /** The step of `ColapsarVisibles` for a leading whitespace run. */
  lemma {:induction false} ColapsarVisiblesEspacio(s: string)
    requires |s| > 0 && EsEspacio(s[0])
    requires Visibles(Colapsar(TrimStart(s))) == Visibles(TrimStart(s))
    ensures Visibles(Colapsar(s)) == Visibles(s)
  {
    var t := TrimStart(s);
    assert Colapsar(s) == " " + Colapsar(t);
    VisiblesTrasEspacio(Colapsar(t));
    TrimStartVisibles(s);
  }

  /** The step of `ColapsarVisibles` for a leading visible character. */
  lemma {:induction false} ColapsarVisiblesLetra(s: string)
    requires |s| > 0 && !EsEspacio(s[0])
    requires Visibles(Colapsar(s[1..])) == Visibles(s[1..])
    ensures Visibles(Colapsar(s)) == Visibles(s)
  {
    var t := s[1..];
    assert Colapsar(s) == [s[0]] + Colapsar(t);
    assert s == [s[0]] + t;
    VisiblesCons(s[0], Colapsar(t));
    VisiblesCons(s[0], t);
  }

  /** `s.toLowerCase().endsWith(suf)` for a suffix of Basic Latin lower-case letters and punctuation. */
  predicate TerminaEn(s: string, suf: string)
  {
    |suf| <= |s| && s[|s| - |suf|..] == suf
  }

  /**
   * `toUpperCase` of one character on Basic Latin and Latin-1, plus the two
   * Latin Extended-A letters whose upper case is a Basic Latin letter: the
   * dotless i and the long s. The sharp s becomes two letters.
   */
  function MayusculaChar(c: char): string
  {
    if 'a' <= c <= 'z' then [(c as int - 32) as char]
    else if c == '\U{DF}' then "SS"
    else if '\U{E0}' <= c <= '\U{FE}' && c != '\U{F7}' then [(c as int - 32) as char]
    else if c == '\U{FF}' then ['\U{178}']
    else if c == '\U{B5}' then ['\U{39C}']
    else if c == '\U{131}' then "I"
    else if c == '\U{17F}' then "S"
    else [c]
  }

  /** A character `toUpperCase` leaves alone. */
  predicate EsMayuscula(c: char)
  {
    MayusculaChar(c) == [c]
  }

  /** Basic Latin capitals are upper case. */
  lemma {:induction false} MayusculaAscii(x: char)
    requires 'A' <= x <= 'Z'
    ensures EsMayuscula(x)
  {
  }

  /** `toUpperCase`. */
  function Mayusculas(s: string): string
    decreases |s|
  {
    if |s| == 0 then "" else MayusculaChar(s[0]) + Mayusculas(s[1..])
  }

  /** Every character `toUpperCase` produces is one it leaves alone. */
  lemma {:induction false} MayusculaCharEstable(c: char)
    ensures forall x | x in MayusculaChar(c) :: EsMayuscula(x)
  {
  }

  lemma {:induction false} MayusculasAppend(a: string, b: string)
    ensures Mayusculas(a + b) == Mayusculas(a) + Mayusculas(b)
    decreases |a|
  {
    if |a| == 0 {
      assert a + b == b;
    } else {
      assert (a + b)[1..] == a[1..] + b;
      MayusculasAppend(a[1..], b);
    }
  }

  /** Every character of an upper-cased string is upper case. */
  lemma {:induction false} MayusculasSonMayusculas(s: string)
    ensures forall x | x in Mayusculas(s) :: EsMayuscula(x)
    decreases |s|
  {
    if |s| > 0 {
      MayusculaCharEstable(s[0]);
      MayusculasSonMayusculas(s[1..]);
    }
  }

  /** A string of upper-case characters is its own upper case. */
  lemma {:induction false} MayusculasFijo(s: string)
    requires forall x | x in s :: EsMayuscula(x)
    ensures Mayusculas(s) == s
    decreases |s|
  {
    if |s| > 0 {
      assert s[0] in s;
      assert forall x | x in s[1..] :: x in s;
      MayusculasFijo(s[1..]);
      assert s == [s[0]] + s[1..];
    }
  }

  /** `toUpperCase` is idempotent. */
  lemma {:induction false} MayusculasIdempotente(s: string)
    ensures Mayusculas(Mayusculas(s)) == Mayusculas(s)
  {
    MayusculasSonMayusculas(s);
    MayusculasFijo(Mayusculas(s));
  }

  /** `toLowerCase` of one character on Basic Latin and Latin-1. */
  function MinusculaChar(c: char): char
  {
    if 'A' <= c <= 'Z' then (c as int + 32) as char
    else if '\U{C0}' <= c <= '\U{DE}' && c != '\U{D7}' then (c as int + 32) as char
    else c
  }

  /** `toLowerCase`. */
  function Minusculas(s: string): (r: string)
    ensures |r| == |s| && forall k | 0 <= k < |s| :: r[k] == MinusculaChar(s[k])
  {
    seq(|s|, k requires 0 <= k < |s| => MinusculaChar(s[k]))
  }

  /** Canonical decomposition (NFD) of one precomposed Latin-1 letter, or of capital Y with diaeresis: base letter, then its combining mark. */
  function Descomponer(c: char): (r: string)
    ensures r == [c] || (|r| == 2 && ('A' <= r[0] <= 'Z' || 'a' <= r[0] <= 'z') && EsMarca(r[1]))
    ensures |r| == 2 && EsMayuscula(c) ==> 'A' <= r[0] <= 'Z'
  {
    match c
    case '\U{C0}' => "A\U{300}"  case '\U{C1}' => "A\U{301}"  case '\U{C2}' => "A\U{302}"
    case '\U{C3}' => "A\U{303}"  case '\U{C4}' => "A\U{308}"  case '\U{C5}' => "A\U{30A}"
    case '\U{C7}' => "C\U{327}"
    case '\U{C8}' => "E\U{300}"  case '\U{C9}' => "E\U{301}"  case '\U{CA}' => "E\U{302}"  case '\U{CB}' => "E\U{308}"
    case '\U{CC}' => "I\U{300}"  case '\U{CD}' => "I\U{301}"  case '\U{CE}' => "I\U{302}"  case '\U{CF}' => "I\U{308}"
    case '\U{D1}' => "N\U{303}"
    case '\U{D2}' => "O\U{300}"  case '\U{D3}' => "O\U{301}"  case '\U{D4}' => "O\U{302}"
    case '\U{D5}' => "O\U{303}"  case '\U{D6}' => "O\U{308}"
    case '\U{D9}' => "U\U{300}"  case '\U{DA}' => "U\U{301}"  case '\U{DB}' => "U\U{302}"  case '\U{DC}' => "U\U{308}"
    case '\U{DD}' => "Y\U{301}"
    case '\U{E0}' => "a\U{300}"  case '\U{E1}' => "a\U{301}"  case '\U{E2}' => "a\U{302}"
    case '\U{E3}' => "a\U{303}"  case '\U{E4}' => "a\U{308}"  case '\U{E5}' => "a\U{30A}"
    case '\U{E7}' => "c\U{327}"
    case '\U{E8}' => "e\U{300}"  case '\U{E9}' => "e\U{301}"  case '\U{EA}' => "e\U{302}"  case '\U{EB}' => "e\U{308}"
    case '\U{EC}' => "i\U{300}"  case '\U{ED}' => "i\U{301}"  case '\U{EE}' => "i\U{302}"  case '\U{EF}' => "i\U{308}"
    case '\U{F1}' => "n\U{303}"
    case '\U{F2}' => "o\U{300}"  case '\U{F3}' => "o\U{301}"  case '\U{F4}' => "o\U{302}"
    case '\U{F5}' => "o\U{303}"  case '\U{F6}' => "o\U{308}"
    case '\U{F9}' => "u\U{300}"  case '\U{FA}' => "u\U{301}"  case '\U{FB}' => "u\U{302}"  case '\U{FC}' => "u\U{308}"
    case '\U{FD}' => "y\U{301}"  case '\U{FF}' => "y\U{308}"
    case '\U{178}' => "Y\U{308}"
    case _ => [c]
  }

  /** `normalize("NFD")`. */
  function Nfd(s: string): string
    decreases |s|
  {
    if |s| == 0 then "" else Descomponer(s[0]) + Nfd(s[1..])
  }

  /** A combining diacritical mark, U+0300 to U+036F. */
  predicate EsMarca(c: char)
  {
    '\U{300}' <= c <= '\U{36F}'
  }

  function NoEsMarca(): char -> bool
  {
    c => !EsMarca(c)
  }

  /** The pieces of a decomposition are already decomposed, and those of an upper-case letter are upper case. */
  lemma {:induction false} DescomponerEstable(c: char)
    ensures forall x | x in Descomponer(c) :: Descomponer(x) == [x]
    ensures EsMayuscula(c) ==> forall x | x in Descomponer(c) :: EsMayuscula(x)
  {
    var r := Descomponer(c);
    if r != [c] {
      SinDescomposicion(r[0]);
      SinDescomposicion(r[1]);
      assert r == [r[0], r[1]];
    }
  }

  /** Basic Latin letters and combining marks have no decomposition; the marks are their own upper case. */
  lemma {:induction false} SinDescomposicion(x: char)
    requires 'A' <= x <= 'Z' || 'a' <= x <= 'z' || EsMarca(x)
    ensures Descomponer(x) == [x]
    ensures EsMarca(x) ==> EsMayuscula(x)
  {
  }

  /** What `Nfd` produces is decomposed already, and upper case when its input was. */
  lemma {:induction false} NfdEstable(s: string)
    ensures forall x | x in Nfd(s) :: Descomponer(x) == [x]
    ensures (forall x | x in s :: EsMayuscula(x)) ==> forall x | x in Nfd(s) :: EsMayuscula(x)
    decreases |s|
  {
    if |s| > 0 {
      DescomponerEstable(s[0]);
      NfdEstable(s[1..]);
      if forall x | x in s :: EsMayuscula(x) {
        assert forall x | x in s[1..] :: x in s;
      }
    }
  }

  /** A decomposed string is its own decomposition. */
  lemma {:induction false} NfdFijo(s: string)
    requires forall x | x in s :: Descomponer(x) == [x]
    ensures Nfd(s) == s
    decreases |s|
  {
    if |s| > 0 {
      NfdFijo(s[1..]);
    }
  }

  /** Whitespace-run splitting, `split(/\s+/)`: a leading or trailing run yields an empty first or last piece, and the empty string yields one empty piece. */
  function Dividir(s: string): (r: seq<string>)
    ensures |r| >= 1
    decreases |s|
  {
    if |s| == 0 then [""]
    else if EsEspacio(s[0]) then [""] + Dividir(TrimStart(s))
    else
      var d := Dividir(s[1..]);
      [[s[0]] + d[0]] + d[1..]
  }

  /** Concatenation of a sequence of strings. */
  function Concat(ps: seq<string>): string
    decreases |ps|
  {
    if |ps| == 0 then "" else ps[0] + Concat(ps[1..])
  }

  /** No piece holds whitespace. */
  lemma {:induction false} DividirSinEspacios(s: string)
    ensures forall i, k | 0 <= i < |Dividir(s)| && 0 <= k < |Dividir(s)[i]| :: !EsEspacio(Dividir(s)[i][k])
    decreases |s|
  {
    if |s| > 0 {
      var r := Dividir(s);
      if EsEspacio(s[0]) {
        var t := TrimStart(s);
        DividirSinEspacios(t);
        assert r == [""] + Dividir(t);
      } else {
        var d := Dividir(s[1..]);
        DividirSinEspacios(s[1..]);
        assert r == [[s[0]] + d[0]] + d[1..];
        forall i, k | 0 <= i < |r| && 0 <= k < |r[i]| ensures !EsEspacio(r[i][k]) {
          if i > 0 {
            assert r[i] == d[i];
          } else if k > 0 {
            assert r[0][k] == d[0][k - 1];
          }
        }
      }
    }
  }

  /** Put back together, the pieces are the visible characters of `s`, in order. */
  lemma {:induction false} DividirVisibles(s: string)
    ensures Concat(Dividir(s)) == Visibles(s)
    decreases |s|
  {
    if |s| > 0 {
      if EsEspacio(s[0]) {
        DividirVisibles(TrimStart(s));
        DividirVisiblesEspacio(s);
      } else {
        DividirVisibles(s[1..]);
        DividirVisiblesLetra(s);
      }
    }
  }

  /** The step of `DividirVisibles` for a leading whitespace run. */
  lemma {:induction false} DividirVisiblesEspacio(s: string)
    requires |s| > 0 && EsEspacio(s[0])
    requires Concat(Dividir(TrimStart(s))) == Visibles(TrimStart(s))
    ensures Concat(Dividir(s)) == Visibles(s)
  {
    var t := TrimStart(s);
    assert Dividir(s) == [""] + Dividir(t);
    assert ([""] + Dividir(t))[1..] == Dividir(t);
    TrimStartVisibles(s);
  }

  /** The step of `DividirVisibles` for a leading visible character. */
  lemma {:induction false} DividirVisiblesLetra(s: string)
    requires |s| > 0 && !EsEspacio(s[0])
    requires Concat(Dividir(s[1..])) == Visibles(s[1..])
    ensures Concat(Dividir(s)) == Visibles(s)
  {
    var t := s[1..];
    var d := Dividir(t);
    assert Dividir(s) == [[s[0]] + d[0]] + d[1..];
    ConcatPrefijo([s[0]], d);
    assert s == [s[0]] + t;
    VisiblesCons(s[0], t);
  }

  /** Prepending to the first piece prepends to the concatenation. */
  lemma {:induction false} ConcatPrefijo(p: string, d: seq<string>)
    requires |d| >= 1
    ensures Concat([p + d[0]] + d[1..]) == p + Concat(d)
  {
    var ds := [p + d[0]] + d[1..];
    assert ds[0] == p + d[0] && ds[1..] == d[1..];
    assert Concat(ds) == (p + d[0]) + Concat(d[1..]);
  }

  /** `join(" ")`: the pieces with one space between neighbours. */
  function Unir(ps: seq<string>): string
    decreases |ps|
  {
    if |ps| == 0 then ""
    else if |ps| == 1 then ps[0]
    else ps[0] + " " + Unir(ps[1..])
  }

  /** Prepending to the first piece prepends to the joined string. */
  lemma {:induction false} UnirPrefijo(p: string, d: seq<string>)
    requires |d| >= 1
    ensures Unir([p + d[0]] + d[1..]) == p + Unir(d)
  {
    var ds := [p + d[0]] + d[1..];
    assert ds[0] == p + d[0] && ds[1..] == d[1..];
  }

  /** Splitting on whitespace runs and joining with single spaces is collapsing the runs. */
  lemma {:induction false} UnirDividir(s: string)
    ensures Unir(Dividir(s)) == Colapsar(s)
    decreases |s|
  {
    if |s| > 0 {
      if EsEspacio(s[0]) {
        var d := Dividir(TrimStart(s));
        UnirDividir(TrimStart(s));
        assert Dividir(s) == [""] + d;
        assert ([""] + d)[1..] == d;
      } else {
        var d := Dividir(s[1..]);
        UnirDividir(s[1..]);
        assert Dividir(s) == [[s[0]] + d[0]] + d[1..];
        UnirPrefijo([s[0]], d);
      }
    }
  }

  /** A string without whitespace is left as it is by collapsing. */
  lemma {:induction false} ColapsarSinEspacios(s: string)
    requires forall k | 0 <= k < |s| :: !EsEspacio(s[k])
    ensures Colapsar(s) == s
    decreases |s|
  {
    if |s| > 0 {
      ColapsarSinEspacios(s[1..]);
      assert s == [s[0]] + s[1..];
    }
  }

  /** `trimStart` of a whitespace run followed by a visible character stops at that character. */
  lemma {:induction false} TrimStartRacha(w: string, y: string)
    requires forall k | 0 <= k < |w| :: EsEspacio(w[k])
    requires |y| == 0 || !EsEspacio(y[0])
    ensures TrimStart(w + y) == y
    decreases |w|
  {
    if |w| == 0 {
      assert w + y == y;
    } else {
      assert (w + y)[1..] == w[1..] + y;
      TrimStartRacha(w[1..], y);
    }
  }

  /** `trimStart` of a string that ends in a visible character is not affected by what follows. */
  lemma {:induction false} TrimStartConcat(x: string, z: string)
    requires |x| > 0 && !EsEspacio(x[|x| - 1])
    ensures TrimStart(x + z) == TrimStart(x) + z
    decreases |x|
  {
    if EsEspacio(x[0]) {
      assert (x + z)[1..] == x[1..] + z;
      TrimStartConcat(x[1..], z);
    }
  }

  /** `Colapsar` at a leading whitespace run. */
  lemma {:induction false} ColapsarEspacio(s: string)
    requires |s| > 0 && EsEspacio(s[0])
    ensures Colapsar(s) == " " + Colapsar(TrimStart(s))
  {
  }

  /** `Colapsar` at a leading visible character. */
  lemma {:induction false} ColapsarLetra(s: string)
    requires |s| > 0 && !EsEspacio(s[0])
    ensures Colapsar(s) == [s[0]] + Colapsar(s[1..])
  {
  }

  /** Concatenation is associative. */
  lemma {:induction false} Asociar(a: string, b: string, c: string)
    ensures a + (b + c) == (a + b) + c
  {
  }

  /** Collapsing a string that ends in a visible character is not affected by what follows. */
  lemma {:induction false} ColapsarConcat(x: string, z: string)
    requires |x| == 0 || !EsEspacio(x[|x| - 1])
    ensures Colapsar(x + z) == Colapsar(x) + Colapsar(z)
    decreases |x|
  {
    if |x| == 0 {
      assert x + z == z;
    } else {
      var c, u := x[0], x[1..];
      assert x == [c] + u;
      assert |u| == 0 || u[|u| - 1] == x[|x| - 1];
      ColapsarConcat(u, z);
      Asociar([c], u, z);
      if !EsEspacio(c) {
        ColapsarCons(c, u + z);
        ColapsarCons(c, u);
        ColapsarConcatPaso(c, u, z, [c]);
      } else if EsEspacio(u[0]) {
        assert (u + z)[0] == u[0];
        ColapsarDosEspacios(c, u + z);
        ColapsarDosEspacios(c, u);
      } else {
        assert (u + z)[0] == u[0];
        ColapsarEspacioCons(c, u + z);
        ColapsarEspacioCons(c, u);
        ColapsarConcatPaso(c, u, z, " ");
      }
    }
  }

  /** A visible character is kept as it is. */
  lemma {:induction false} ColapsarCons(c: char, t: string)
    requires !EsEspacio(c)
    ensures Colapsar([c] + t) == [c] + Colapsar(t)
  {
    var s := [c] + t;
    assert s[0] == c && s[1..] == t;
    ColapsarLetra(s);
  }

  /** Of two leading whitespace characters, the first adds nothing. */
  lemma {:induction false} ColapsarDosEspacios(c: char, t: string)
    requires EsEspacio(c) && |t| > 0 && EsEspacio(t[0])
    ensures Colapsar([c] + t) == Colapsar(t)
  {
    var s := [c] + t;
    assert s[0] == c && s[1..] == t;
    ColapsarEspacio(s);
    ColapsarEspacio(t);
  }

  /** A single whitespace character before a visible one becomes one space. */
  lemma {:induction false} ColapsarEspacioCons(c: char, t: string)
    requires EsEspacio(c) && |t| > 0 && !EsEspacio(t[0])
    ensures Colapsar([c] + t) == " " + Colapsar(t)
  {
    var s := [c] + t;
    assert s[0] == c && s[1..] == t;
    ColapsarEspacio(s);
  }

  /** The step of `ColapsarConcat` once the first character has become `h`. */
  lemma {:induction false} ColapsarConcatPaso(c: char, u: string, z: string, h: string)
    requires Colapsar([c] + (u + z)) == h + Colapsar(u + z)
    requires Colapsar([c] + u) == h + Colapsar(u)
    requires Colapsar(u + z) == Colapsar(u) + Colapsar(z)
    ensures Colapsar([c] + (u + z)) == Colapsar([c] + u) + Colapsar(z)
  {
    Asociar(h, Colapsar(u), Colapsar(z));
  }

  /** A whitespace run in front of a word becomes one space. */
  lemma {:induction false} ColapsarRachaInicial(w: string, y: string)
    requires |w| > 0 && forall k | 0 <= k < |w| :: EsEspacio(w[k])
    requires |y| == 0 || !EsEspacio(y[0])
    ensures Colapsar(w + y) == " " + Colapsar(y)
  {
    var wy := w + y;
    TrimStartRacha(w, y);
    assert wy[0] == w[0];
    ColapsarEspacio(wy);
  }

  /** A whitespace run between two words becomes exactly one space, whatever its length and characters. */
  lemma {:induction false} ColapsarRacha(x: string, w: string, y: string)
    requires |x| == 0 || !EsEspacio(x[|x| - 1])
    requires |w| > 0 && forall k | 0 <= k < |w| :: EsEspacio(w[k])
    requires |y| == 0 || !EsEspacio(y[0])
    ensures Colapsar(x + w + y) == Colapsar(x) + " " + Colapsar(y)
  {
    ColapsarRachaInicial(w, y);
    ColapsarConcatTres(x, w, y);
    Asociar(Colapsar(x), " ", Colapsar(y));
  }

  /** `ColapsarConcat` with the tail given in two parts. */
  lemma {:induction false} ColapsarConcatTres(x: string, w: string, y: string)
    requires |x| == 0 || !EsEspacio(x[|x| - 1])
    ensures Colapsar(x + w + y) == Colapsar(x) + Colapsar(w + y)
  {
    assert x + w + y == x + (w + y);
    ColapsarConcat(x, w + y);
  }

  /** JavaScript's `\d`: an ASCII decimal digit. */
  predicate EsDigito(c: char)
  {
    '0' <= c <= '9'
  }

  /** `/^\d+$/.test(s)`. */
  predicate SoloDigitos(s: string)
  {
    |s| > 0 && forall k | 0 <= k < |s| :: EsDigito(s[k])
  }

  /** `parseInt(s, 10)` on a string of digits. */
  function ValorDecimal(s: string): (n: nat)
    requires forall k | 0 <= k < |s| :: EsDigito(s[k])
    decreases |s|
  {
    if |s| == 0 then 0
    else
      assert EsDigito(s[|s| - 1]);
      10 * ValorDecimal(s[..|s| - 1]) + (s[|s| - 1] as int - '0' as int)
  }

  /** The shortest decimal numeral of `n`. */
  function Decimal(n: nat): (s: string)
    ensures SoloDigitos(s)
    decreases n
  {
    if n < 10 then [('0' as int + n) as char] else Decimal(n / 10) + [('0' as int + n % 10) as char]
  }

  /** Reading back a numeral gives the number it was written from. */
  lemma {:induction false} ValorDecimalDeDecimal(n: nat)
    ensures ValorDecimal(Decimal(n)) == n
    decreases n
  {
    if n >= 10 {
      ValorDecimalDeDecimal(n / 10);
      var s := Decimal(n);
      assert s[..|s| - 1] == Decimal(n / 10);
    }
  }
}
