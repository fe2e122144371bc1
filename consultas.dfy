/** The specification of the text views and look-ups: the adjacency listing,
    the case-insensitive look-up of a vertex by name, and the names the editor
    generates for new vertices. */
module Consultas {
  import opened Entidades
  import opened Texto

  /** The text of one entry: the neighbour's name, the weight in parentheses and
      a trailing space. */
  function TextoEntrada(vs: seq<Vertice>, e: Adjacente): string {
    NomeDe(vs, e.vizinho) + "(" + IntParaTexto(e.peso) + ") "
  }

  /** The entries' texts, in list order. */
  function Entradas(vs: seq<Vertice>, adj: seq<Adjacente>): (r: string)
    ensures adj != [] ==> |r| > 0 && r[|r| - 1] == ' '
  {
    if adj == [] then "" else Entradas(vs, adj[..|adj| - 1]) + TextoEntrada(vs, adj[|adj| - 1])
  }

  lemma EntradasPasso(vs: seq<Vertice>, adj: seq<Adjacente>, j: nat)
    requires j < |adj|
    ensures Entradas(vs, adj[..j + 1]) == Entradas(vs, adj[..j]) + TextoEntrada(vs, adj[j])
  {
    assert adj[..j + 1][..j] == adj[..j];
  }

  const Seta := " → "
  const Isolado := "(isolado)"
  const FimDeLinha := "\r\n"

  /** The line of vertex `v`: its name, the arrow, then `(isolado)` or its
      entries, and the line break. */
  function Linha(vs: seq<Vertice>, v: nat): string {
    NomeDe(vs, v) + Seta + (if Adj(vs, v) == [] then Isolado else Entradas(vs, Adj(vs, v))) + FimDeLinha
  }

  /** The lines of the first `k` vertices. */
  function Linhas(vs: seq<Vertice>, k: nat): (r: seq<string>)
    ensures |r| == k && forall i :: 0 <= i < k ==> r[i] == Linha(vs, i)
  {
    seq(k, i requires 0 <= i < k => Linha(vs, i))
  }

  /** Strings written one after the other. */
  function Junta(ls: seq<string>): string {
    if ls == [] then "" else Junta(ls[..|ls| - 1]) + ls[|ls| - 1]
  }

  /** The listing of the first `k` vertices: their lines, one after the other. */
  function Listagem(vs: seq<Vertice>, k: nat): string {
    Junta(Linhas(vs, k))
  }

  /** The listing grows by one line per vertex. */
  lemma ListagemPasso(vs: seq<Vertice>, k: nat)
    ensures Listagem(vs, k + 1) == Listagem(vs, k) + Linha(vs, k)
  {
    var ls := Linhas(vs, k + 1);
    assert ls[..k] == Linhas(vs, k);
    assert Junta(ls) == Junta(ls[..k]) + ls[k];
  }

  /** A line reads `(isolado)` exactly when the vertex has no entry: a non-empty
      entry text ends with a space, where `(isolado)` ends with a parenthesis. */
  lemma LinhaIsolada(vs: seq<Vertice>, v: nat)
    ensures Linha(vs, v) == NomeDe(vs, v) + Seta + Isolado + FimDeLinha <==> Adj(vs, v) == []
  {
    if Adj(vs, v) != [] {
      var t := Entradas(vs, Adj(vs, v));
      var l := NomeDe(vs, v) + Seta + t + FimDeLinha;
      var iso := NomeDe(vs, v) + Seta + Isolado + FimDeLinha;
      assert l[|l| - 3] == ' ';
      assert iso[|iso| - 3] == ')';
    }
  }

  /** The number of occurrences of `c` in `s`. */
  function Conta(s: string, c: char): nat {
    multiset(s)[c]
  }

  /** A string without line breaks counts none. */
  lemma SemQuebra(s: string)
    requires forall i :: 0 <= i < |s| ==> s[i] != '\n'
    ensures Conta(s, '\n') == 0
  {
    assert '\n' !in s;
  }

  lemma ContaDigitos(s: string)
    requires SoDigitos(s)
    ensures Conta(s, '\n') == 0
  {
    SemQuebra(s);
  }

  lemma ContaInteiro(i: int)
    ensures Conta(IntParaTexto(i), '\n') == 0
  {
    if i < 0 {
      ContaDigitos(NatParaTexto(-i));
    } else {
      ContaDigitos(NatParaTexto(i));
    }
  }

  /** No vertex name holds a line break. */
  predicate NomesDeUmaLinha(vs: seq<Vertice>) {
    forall i :: 0 <= i < |vs| ==> Conta(vs[i].nome, '\n') == 0
  }

  lemma ContaNome(vs: seq<Vertice>, v: nat)
    requires NomesDeUmaLinha(vs)
    ensures Conta(NomeDe(vs, v), '\n') == 0
  {
  }

  lemma {:induction false} ContaEntradas(vs: seq<Vertice>, adj: seq<Adjacente>)
    requires NomesDeUmaLinha(vs)
    ensures Conta(Entradas(vs, adj), '\n') == 0
  {
    if adj != [] {
      var e := adj[|adj| - 1];
      ContaEntradas(vs, adj[..|adj| - 1]);
      ContaNome(vs, e.vizinho);
      ContaInteiro(e.peso);
    }
  }

  /** A line built from a name and a body without line breaks holds one. */
  lemma ContaPartes(nome: string, corpo: string)
    requires Conta(nome, '\n') == 0 && Conta(corpo, '\n') == 0
    ensures Conta(nome + Seta + corpo + FimDeLinha, '\n') == 1
  {
    assert '\n' !in Seta;
    assert multiset(FimDeLinha)['\n'] == 1;
  }

  /** Each line holds exactly one line break, at its end. */
  lemma ContaLinha(vs: seq<Vertice>, v: nat)
    requires NomesDeUmaLinha(vs)
    ensures Conta(Linha(vs, v), '\n') == 1
  {
    var corpo := if Adj(vs, v) == [] then Isolado else Entradas(vs, Adj(vs, v));
    if Adj(vs, v) == [] {
      SemQuebra(Isolado);
    } else {
      ContaEntradas(vs, Adj(vs, v));
    }
    ContaNome(vs, v);
    ContaPartes(NomeDe(vs, v), corpo);
  }

  /** Strings holding one line break each, written one after the other, hold
      one line break per string. */
  lemma {:induction false} ContaJunta(ls: seq<string>)
    requires forall i :: 0 <= i < |ls| ==> Conta(ls[i], '\n') == 1
    ensures Conta(Junta(ls), '\n') == |ls|
  {
    if ls != [] {
      var init := ls[..|ls| - 1];
      forall i | 0 <= i < |init| ensures Conta(init[i], '\n') == 1 {
        assert init[i] == ls[i];
      }
      ContaJunta(init);
      assert multiset(Junta(init) + ls[|ls| - 1]) == multiset(Junta(init)) + multiset(ls[|ls| - 1]);
    }
  }

  /** When no name holds a line break, the listing has one line per vertex. */
  lemma ListagemUmaLinhaPorVertice(vs: seq<Vertice>, k: nat)
    requires NomesDeUmaLinha(vs)
    ensures Conta(Listagem(vs, k), '\n') == k
  {
    var ls := Linhas(vs, k);
    forall i | 0 <= i < k ensures Conta(ls[i], '\n') == 1 {
      ContaLinha(vs, i);
    }
    ContaJunta(ls);
  }

  /** The first vertex whose name matches `nome` ignoring case, if any. */
  function Procura(vs: seq<Vertice>, nome: string): (r: Option<nat>)
    ensures r.None? <==> forall i :: 0 <= i < |vs| ==> !IguaisSemCaixa(vs[i].nome, nome)
    ensures r.Some? ==> r.value < |vs| && IguaisSemCaixa(vs[r.value].nome, nome)
    ensures r.Some? ==> forall i :: 0 <= i < r.value ==> !IguaisSemCaixa(vs[i].nome, nome)
  {
    if vs == [] then None
    else
      var p := Procura(vs[..|vs| - 1], nome);
      if p.Some? then Some(p.value)
      else if IguaisSemCaixa(vs[|vs| - 1].nome, nome) then Some(|vs| - 1)
      else None
  }

  /** No two vertices have names that are equal ignoring case. */
  predicate NomesUnicos(vs: seq<Vertice>) {
    forall i, j :: 0 <= i < |vs| && 0 <= j < |vs| && IguaisSemCaixa(vs[i].nome, vs[j].nome) ==> i == j
  }

  /** The name of the `i`-th generated vertex. */
  function NomeGerado(i: nat): string {
    "V" + NatParaTexto(i)
  }

  /** Some vertex carries exactly the name `nome`. */
  predicate NomeUsado(vs: seq<Vertice>, nome: string) {
    exists k :: 0 <= k < |vs| && vs[k].nome == nome
  }

  /** A generated name gives back its number. */
  lemma NumeroDoNomeGerado(i: nat)
    ensures |NomeGerado(i)| >= 2 && NomeGerado(i)[0] == 'V' && SoDigitos(NomeGerado(i)[1..])
    ensures ValorDecimal(NomeGerado(i)[1..]) == i
  {
    assert NomeGerado(i)[1..] == NatParaTexto(i);
    ValorDoTexto(i);
  }
}
