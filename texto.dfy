/** Text helpers the graph engine relies on: .NET white-space classification and
    trimming, ordinal case-insensitive equality, an ordinal order on names and
    decimal rendering of integers. */
module Texto {

  /** `char.IsWhiteSpace`: the Unicode space separators, the line and paragraph
      separators, U+0009..U+000D and U+0085. */
  predicate EhEspaco(c: char) {
    || ('\U{0009}' <= c <= '\U{000D}')
    || c == ' ' || c == '\U{0085}' || c == '\U{00A0}' || c == '\U{1680}'
    || ('\U{2000}' <= c <= '\U{200A}')
    || c == '\U{2028}' || c == '\U{2029}' || c == '\U{202F}' || c == '\U{205F}' || c == '\U{3000}'
  }

  /** `string.IsNullOrWhiteSpace` on a non-null string. */
  predicate EmBranco(s: string) {
    forall i :: 0 <= i < |s| ==> EhEspaco(s[i])
  }

  /** Number of leading white-space characters. */
  function Inicio(s: string): (k: nat)
    ensures k <= |s| && EmBranco(s[..k])
    ensures k == |s| || !EhEspaco(s[k])
  {
    if s != [] && EhEspaco(s[0]) then
      var k := 1 + Inicio(s[1..]);
      assert s[..k] == [s[0]] + s[1..][..k - 1];
      k
    else 0
  }

  /** Length of `s` once its trailing white space is cut off. */
  function Fim(s: string): (k: nat)
    ensures k <= |s| && EmBranco(s[k..])
    ensures k == 0 || !EhEspaco(s[k - 1])
  {
    if s != [] && EhEspaco(s[|s| - 1]) then
      var k := Fim(s[..|s| - 1]);
      assert s[k..] == s[..|s| - 1][k..] + [s[|s| - 1]];
      k
    else |s|
  }

  /** Trimming: the longest middle slice that neither starts nor ends with
      white space, whatever was cut off being white space. */
  function Apara(s: string): (r: string)
    ensures exists i, j :: 0 <= i <= j <= |s| && r == s[i..j] && EmBranco(s[..i]) && EmBranco(s[j..])
    ensures r == [] || (!EhEspaco(r[0]) && !EhEspaco(r[|r| - 1]))
    ensures r == [] <==> EmBranco(s)
  {
    var i := Inicio(s);
    if i == |s| then
      assert s[..i] == s && s[|s|..] == [];
      s[|s|..]
    else
      var t := s[i..];
      var j := i + Fim(t);
      assert t[..Fim(t)] == s[i..j] && t[Fim(t)..] == s[j..];
      assert !EmBranco(s) by { assert !EhEspaco(s[i]); }
      s[i..j]
  }

  /** `Char.ToUpperInvariant` restricted to the ASCII letters. */
  function Maiuscula(c: char): char {
    if 'a' <= c <= 'z' then (c as int - 32) as char else c
  }

  /** Ordinal equality ignoring case: lengths agree and the characters agree after ASCII upper-casing. */
  predicate IguaisSemCaixa(a: string, b: string) {
    |a| == |b| && forall i :: 0 <= i < |a| ==> Maiuscula(a[i]) == Maiuscula(b[i])
  }

  lemma IguaisSemCaixaEquivalencia(a: string, b: string, c: string)
    ensures IguaisSemCaixa(a, a)
    ensures IguaisSemCaixa(a, b) ==> IguaisSemCaixa(b, a)
    ensures IguaisSemCaixa(a, b) && IguaisSemCaixa(b, c) ==> IguaisSemCaixa(a, c)
  {
  }

  /** Ordinal lexicographic order: the total order on names that stands for
      `string.CompareTo(...) < 0`. */
  predicate Menor(a: string, b: string)
    decreases |a|
  {
    if a == [] then b != []
    else if b == [] then false
    else if a[0] != b[0] then a[0] < b[0]
    else Menor(a[1..], b[1..])
  }

  /** The order is strict and total: two names are equal or exactly one of them
      is the smaller. */
  lemma {:induction false} MenorTotal(a: string, b: string)
    ensures !Menor(a, a)
    ensures a != b ==> (Menor(a, b) <==> !Menor(b, a))
    decreases |a|
  {
    if a != [] {
      MenorTotal(a[1..], a[1..]);
      if b != [] && a[0] == b[0] {
        MenorTotal(a[1..], b[1..]);
        assert a == [a[0]] + a[1..] && b == [b[0]] + b[1..];
      }
    }
  }

  function Digito(d: nat): (c: char)
    requires d < 10
    ensures '0' <= c <= '9' && c as int - '0' as int == d
  {
    ('0' as int + d) as char
  }

  predicate SoDigitos(s: string) {
    forall i :: 0 <= i < |s| ==> '0' <= s[i] <= '9'
  }

  /** Decimal rendering of a natural number, as string interpolation does it. */
  function NatParaTexto(n: nat): (r: string)
    ensures |r| >= 1 && SoDigitos(r)
  {
    if n < 10 then [Digito(n)] else NatParaTexto(n / 10) + [Digito(n % 10)]
  }

  /** The value of a string of decimal digits. */
  function ValorDecimal(s: string): nat
    requires SoDigitos(s)
  {
    if s == [] then 0 else ValorDecimal(s[..|s| - 1]) * 10 + (s[|s| - 1] as int - '0' as int)
  }

  /** Reading back a rendered natural number gives the number. */
  lemma {:induction false} ValorDoTexto(n: nat)
    ensures ValorDecimal(NatParaTexto(n)) == n
  {
    if n >= 10 {
      ValorDoTexto(n / 10);
      var s := NatParaTexto(n);
      assert s[..|s| - 1] == NatParaTexto(n / 10);
    }
  }

  /** Distinct numbers are rendered differently. */
  lemma NatParaTextoInjetiva(a: nat, b: nat)
    ensures NatParaTexto(a) == NatParaTexto(b) ==> a == b
  {
    ValorDoTexto(a);
    ValorDoTexto(b);
  }

  /** Decimal rendering of an integer, with a leading minus sign when negative. */
  function IntParaTexto(i: int): (r: string)
    ensures |r| >= 1
    ensures (r[0] == '-') <==> i < 0
  {
    if i < 0 then "-" + NatParaTexto(-i) else NatParaTexto(i)
  }
}
