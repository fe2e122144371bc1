/** The specification of the two matrix views: the adjacency matrix (each
    cell keeps the weight of the last entry written to it) and the incidence
    matrix with the edge list it is built from. */
module Matrizes {
  import opened Entidades
  import opened Texto

  /** The adjacency-matrix cell for row list `adj` and column `j`: the weight of
      the last entry to `j`, or 0 when there is none. */
  function PesoMatriz(adj: seq<Adjacente>, j: nat): int {
    var ws := PesosPara(adj, j);
    if ws == [] then 0 else ws[|ws| - 1]
  }

  /** Writing the entries one by one: entry `k` overwrites its column. */
  lemma PesoMatrizPasso(adj: seq<Adjacente>, k: nat, j: nat)
    requires k < |adj|
    ensures PesoMatriz(adj[..k + 1], j) == if adj[k].vizinho == j then adj[k].peso else PesoMatriz(adj[..k], j)
  {
    assert adj[..k + 1][..k] == adj[..k];
  }

  /** No entry after position `k` points to `j`. */
  predicate UltimaPara(adj: seq<Adjacente>, j: nat, k: nat) {
    forall k' :: k < k' < |adj| ==> adj[k'].vizinho != j
  }

  /** A cell holds the weight of the last entry to its column, and 0 when the row
      has no entry to the column. */
  lemma {:induction false} PesoMatrizUltimo(adj: seq<Adjacente>, j: nat)
    ensures !TemArcoPara(adj, j) ==> PesoMatriz(adj, j) == 0
    ensures TemArcoPara(adj, j) ==>
      exists k :: 0 <= k < |adj| && adj[k] == Adjacente(j, PesoMatriz(adj, j)) && UltimaPara(adj, j, k)
  {
    if TemArcoPara(adj, j) {
      var k0 :| 0 <= k0 < |adj| && adj[k0].vizinho == j;
      assert adj[k0] in adj;
      var init := adj[..|adj| - 1];
      var last := adj[|adj| - 1];
      if last.vizinho != j {
        assert k0 < |adj| - 1 && init[k0] == adj[k0];
        PesoMatrizUltimo(init, j);
        var k :| 0 <= k < |init| && init[k] == Adjacente(j, PesoMatriz(init, j)) && UltimaPara(init, j, k);
        assert adj[k] == init[k];
        forall k' | k < k' < |adj| ensures adj[k'].vizinho != j {
          if k' < |init| { assert adj[k'] == init[k']; }
        }
        assert UltimaPara(adj, j, k);
      } else {
        assert adj[|adj| - 1] == Adjacente(j, PesoMatriz(adj, j));
      }
    } else {
      assert forall e :: e in adj ==> e.vizinho != j by {
        forall e | e in adj ensures e.vizinho != j {
          var k :| 0 <= k < |adj| && adj[k] == e;
        }
      }
    }
  }

  /** In an undirected graph that keeps the mirror invariant the adjacency matrix
      is symmetric. */
  lemma MatrizSimetrica(vs: seq<Vertice>, i: nat, j: nat)
    requires Espelhado(vs) && i < |vs| && j < |vs|
    ensures PesoMatriz(vs[i].adjacentes, j) == PesoMatriz(vs[j].adjacentes, i)
  {
  }

  /** The incidence matrix lists an entry `v -> viz` as an edge when the graph is
      directed, or when `v`'s name comes strictly before `viz`'s. */
  predicate Incluida(vs: seq<Vertice>, v: nat, viz: nat, dirigido: bool) {
    dirigido || Menor(NomeDe(vs, v), NomeDe(vs, viz))
  }

  /** The edges the first `m` entries of vertex `v` contribute. */
  function ArestasVertice(vs: seq<Vertice>, v: nat, dirigido: bool, m: nat): seq<Aresta>
    requires m <= |Adj(vs, v)|
  {
    if m == 0 then []
    else
      var e := Adj(vs, v)[m - 1];
      ArestasVertice(vs, v, dirigido, m - 1) +
        (if Incluida(vs, v, e.vizinho, dirigido) then [Aresta(v, e.vizinho, e.peso, Rotulo(vs, v, e.vizinho))] else [])
  }

  /** Entry `k` of vertex `v` adds its edge when it passes the filter. */
  lemma ArestasVerticePasso(vs: seq<Vertice>, v: nat, dirigido: bool, k: nat)
    requires v < |vs| && k < |vs[v].adjacentes|
    ensures var e := vs[v].adjacentes[k];
      ArestasVertice(vs, v, dirigido, k + 1) == ArestasVertice(vs, v, dirigido, k) +
        (if dirigido || Menor(vs[v].nome, NomeDe(vs, e.vizinho))
         then [Aresta(v, e.vizinho, e.peso, vs[v].nome + "-" + NomeDe(vs, e.vizinho))] else [])
  {
  }

  /** The list being built grows from `ArestasVertice(.., k)` to
      `ArestasVertice(.., k + 1)` by appending entry `k`'s edge when it passes the
      filter, and stays as it is otherwise. */
  lemma ArestasVerticeAnexa(vs: seq<Vertice>, v: nat, dirigido: bool, k: nat, antes: seq<Aresta>, arestas: seq<Aresta>)
    requires v < |vs| && k < |vs[v].adjacentes| && arestas == antes + ArestasVertice(vs, v, dirigido, k)
    ensures var e := vs[v].adjacentes[k];
      (dirigido || Menor(vs[v].nome, NomeDe(vs, e.vizinho))) ==>
        arestas + [Aresta(v, e.vizinho, e.peso, vs[v].nome + "-" + NomeDe(vs, e.vizinho))] ==
        antes + ArestasVertice(vs, v, dirigido, k + 1)
    ensures var e := vs[v].adjacentes[k];
      !(dirigido || Menor(vs[v].nome, NomeDe(vs, e.vizinho))) ==> arestas == antes + ArestasVertice(vs, v, dirigido, k + 1)
  {
    ArestasVerticePasso(vs, v, dirigido, k);
    var e := vs[v].adjacentes[k];
    var a := Aresta(v, e.vizinho, e.peso, vs[v].nome + "-" + NomeDe(vs, e.vizinho));
    assert arestas + [a] == antes + (ArestasVertice(vs, v, dirigido, k) + [a]);
  }

  /** The edge list of the incidence matrix, built from the first `k` vertices. */
  function ArestasIncidencia(vs: seq<Vertice>, dirigido: bool, k: nat): seq<Aresta> {
    if k == 0 then [] else ArestasIncidencia(vs, dirigido, k - 1) + ArestasVertice(vs, k - 1, dirigido, |Adj(vs, k - 1)|)
  }

  /** The edge-list characterisation: an edge is listed exactly when it stands for
      an entry of one of the first `k` vertices that passes the filter. */
  ghost predicate Listada(vs: seq<Vertice>, dirigido: bool, k: nat, a: Aresta) {
    a.origem < k && Adjacente(a.destino, a.peso) in Adj(vs, a.origem) &&
    Incluida(vs, a.origem, a.destino, dirigido) && a.nome == Rotulo(vs, a.origem, a.destino)
  }

  lemma {:induction false} ArestasVerticeMembro(vs: seq<Vertice>, v: nat, dirigido: bool, m: nat, a: Aresta)
    requires m <= |Adj(vs, v)|
    ensures a in ArestasVertice(vs, v, dirigido, m) <==>
      a.origem == v && EntradaEntre(Adj(vs, v), Adjacente(a.destino, a.peso), m) &&
      Incluida(vs, v, a.destino, dirigido) && a.nome == Rotulo(vs, v, a.destino)
  {
    if m > 0 {
      var adj := Adj(vs, v);
      var e, x := adj[m - 1], Adjacente(a.destino, a.peso);
      ArestasVerticeMembro(vs, v, dirigido, m - 1, a);
      assert EntradaEntre(adj, x, m) <==> EntradaEntre(adj, x, m - 1) || x == e;
      var novo := if Incluida(vs, v, e.vizinho, dirigido) then [Aresta(v, e.vizinho, e.peso, Rotulo(vs, v, e.vizinho))] else [];
      assert ArestasVertice(vs, v, dirigido, m) == ArestasVertice(vs, v, dirigido, m - 1) + novo;
      assert a in ArestasVertice(vs, v, dirigido, m) <==> a in ArestasVertice(vs, v, dirigido, m - 1) || a in novo;
    }
  }

  lemma {:induction false} ArestasIncidenciaMembro(vs: seq<Vertice>, dirigido: bool, k: nat, a: Aresta)
    ensures a in ArestasIncidencia(vs, dirigido, k) <==> Listada(vs, dirigido, k, a)
  {
    if k > 0 {
      var adj := Adj(vs, k - 1);
      ArestasIncidenciaMembro(vs, dirigido, k - 1, a);
      ArestasVerticeMembro(vs, k - 1, dirigido, |adj|, a);
      var x := Adjacente(a.destino, a.peso);
      assert EntradaEntre(adj, x, |adj|) <==> x in adj;
      var antes, novas := ArestasIncidencia(vs, dirigido, k - 1), ArestasVertice(vs, k - 1, dirigido, |adj|);
      assert ArestasIncidencia(vs, dirigido, k) == antes + novas;
      assert a in antes + novas <==> a in antes || a in novas;
      var daqui := a.origem == k - 1 && x in adj && Incluida(vs, k - 1, a.destino, dirigido) && a.nome == Rotulo(vs, k - 1, a.destino);
      assert a in novas <==> daqui;
      assert Listada(vs, dirigido, k, a) <==> Listada(vs, dirigido, k - 1, a) || daqui;
    }
  }

  /** In undirected mode no self-loop is listed, and an entry is listed from one
      end only: its reverse never is. */
  lemma IncidenciaNaoDirigida(vs: seq<Vertice>, a: Aresta)
    requires a in ArestasIncidencia(vs, false, |vs|)
    ensures a.origem != a.destino
    ensures forall nome :: Aresta(a.destino, a.origem, a.peso, nome) !in ArestasIncidencia(vs, false, |vs|)
  {
    ArestasIncidenciaMembro(vs, false, |vs|, a);
    MenorTotal(NomeDe(vs, a.origem), NomeDe(vs, a.destino));
    forall nome ensures Aresta(a.destino, a.origem, a.peso, nome) !in ArestasIncidencia(vs, false, |vs|) {
      ArestasIncidenciaMembro(vs, false, |vs|, Aresta(a.destino, a.origem, a.peso, nome));
    }
  }

  /** The incidence-matrix cell of row `i` for the edge `a`: in a directed graph
      +1 at the origin and -1 at the destination, the destination written last;
      otherwise +1 at both ends. */
  function ValorIncidencia(a: Aresta, i: nat, dirigido: bool): int {
    if dirigido then (if i == a.destino then -1 else if i == a.origem then 1 else 0)
    else if i == a.origem || i == a.destino then 1 else 0
  }

  /** The sum of the first `n` cells of the column of `a`. */
  function SomaColuna(a: Aresta, dirigido: bool, n: nat): int {
    if n == 0 then 0 else SomaColuna(a, dirigido, n - 1) + ValorIncidencia(a, n - 1, dirigido)
  }

  /** Column sums: an arc's column sums to 0, a directed self-loop's to -1 (only
      the -1 survives), an undirected edge's to 2. */
  lemma {:induction false} SomaColunaIncidencia(a: Aresta, dirigido: bool, n: nat)
    requires a.origem < n && a.destino < n
    ensures dirigido && a.origem != a.destino ==> SomaColuna(a, dirigido, n) == 0
    ensures dirigido && a.origem == a.destino ==> SomaColuna(a, dirigido, n) == -1
    ensures !dirigido && a.origem != a.destino ==> SomaColuna(a, dirigido, n) == 2
  {
    SomaParcial(a, dirigido, n);
  }

  lemma {:induction false} SomaParcial(a: Aresta, dirigido: bool, n: nat)
    ensures SomaColuna(a, dirigido, n) ==
      (if dirigido then (if a.destino < n then -1 else 0) + (if a.origem < n && a.origem != a.destino then 1 else 0)
       else (if a.origem < n then 1 else 0) + (if a.destino < n && a.destino != a.origem then 1 else 0))
  {
    if n > 0 {
      SomaParcial(a, dirigido, n - 1);
    }
  }
}
