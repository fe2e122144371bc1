/** The entity layer: vertex records with their owned adjacency lists, and the
    transient edge records the algorithms return.

    A vertex is identified by its position in the graph's vertex list: an
    adjacency entry names its neighbour by that position, which is how the
    model renders the reference identity the algorithms compare by. */
module Entidades {

  /** One `(vizinho, peso)` adjacency entry. */
  datatype Adjacente = Adjacente(vizinho: nat, peso: int)

  /** A vertex: a freely chosen name and its ordered adjacency list; duplicate
      entries and entries naming the vertex itself (self-loops) are allowed. */
  datatype Vertice = Vertice(nome: string, adjacentes: seq<Adjacente>)

  datatype Option<T> = None | Some(value: T)

  /** An edge record built by an algorithm as output; the graph never stores one. */
  datatype Aresta = Aresta(origem: nat, destino: nat, peso: int, nome: string)

  /** The list of vertex `i`, empty outside the graph. */
  function Adj(vs: seq<Vertice>, i: nat): seq<Adjacente> {
    if i < |vs| then vs[i].adjacentes else []
  }

  /** The name of vertex `i`, empty outside the graph. */
  function NomeDe(vs: seq<Vertice>, i: nat): string {
    if i < |vs| then vs[i].nome else ""
  }

  /** The name the algorithms give the edge `origem -> destino`: both names
      joined by a hyphen. */
  function Rotulo(vs: seq<Vertice>, origem: nat, destino: nat): string {
    NomeDe(vs, origem) + "-" + NomeDe(vs, destino)
  }

  /** No entry names a vertex outside the list: there is no dangling reference. */
  predicate BemFormado(vs: seq<Vertice>) {
    forall i, e :: 0 <= i < |vs| && e in vs[i].adjacentes ==> e.vizinho < |vs|
  }

  /** The weights of the entries of `adj` that point to `t`, in list order. */
  function PesosPara(adj: seq<Adjacente>, t: nat): (ws: seq<int>)
    ensures |ws| <= |adj|
    ensures |ws| == 0 <==> forall e :: e in adj ==> e.vizinho != t
  {
    if adj == [] then []
    else
      var last := adj[|adj| - 1];
      assert forall e :: e in adj ==> e in adj[..|adj| - 1] || e == last;
      PesosPara(adj[..|adj| - 1], t) + (if last.vizinho == t then [last.peso] else [])
  }

  /** The undirected-mode invariant: between two distinct vertices, the entries
      `u -> v` and `v -> u` carry the same weights in the same order. */
  predicate Espelhado(vs: seq<Vertice>) {
    forall u, v :: 0 <= u < |vs| && 0 <= v < |vs| && u != v ==>
      PesosPara(vs[u].adjacentes, v) == PesosPara(vs[v].adjacentes, u)
  }

  /** Under the mirror invariant an entry `u -> w` between distinct vertices has
      an entry `w -> u` back. */
  lemma EntradaDeVolta(vs: seq<Vertice>, u: nat, k: nat)
    requires Espelhado(vs) && BemFormado(vs) && u < |vs| && k < |vs[u].adjacentes|
    requires vs[u].adjacentes[k].vizinho != u
    ensures var w := vs[u].adjacentes[k].vizinho;
      w < |vs| && exists k' :: 0 <= k' < |vs[w].adjacentes| && vs[w].adjacentes[k'].vizinho == u
  {
    var w := vs[u].adjacentes[k].vizinho;
    assert vs[u].adjacentes[k] in vs[u].adjacentes;
    assert PesosPara(vs[w].adjacentes, u) != [];
    var e :| e in vs[w].adjacentes && e.vizinho == u;
    var k' :| 0 <= k' < |vs[w].adjacentes| && vs[w].adjacentes[k'] == e;
  }

  /** Every weight is non-negative, the hypothesis of Dijkstra's algorithm. */
  predicate NaoNegativo(vs: seq<Vertice>) {
    forall i, e :: 0 <= i < |vs| && e in vs[i].adjacentes ==> e.peso >= 0
  }

  /** Some entry of `adj` points to `t`. */
  predicate TemArcoPara(adj: seq<Adjacente>, t: nat) {
    exists j :: 0 <= j < |adj| && adj[j].vizinho == t
  }

  /** One of the first `m` entries of `adj` is `x`. */
  ghost predicate EntradaEntre(adj: seq<Adjacente>, x: Adjacente, m: nat) {
    exists k :: 0 <= k < m && k < |adj| && adj[k] == x
  }

  /** Appending one element after a concatenation. */
  lemma Anexo<T>(a: seq<T>, b: seq<T>, x: T)
    ensures a + (b + [x]) == (a + b) + [x]
  {
  }

  /** The set of positions 0 .. n-1. */
  function Faixa(n: nat): (r: set<nat>)
    ensures forall x: nat :: x in r <==> x < n
    ensures |r| == n
  {
    if n == 0 then {} else Faixa(n - 1) + {n - 1}
  }

  /** A set is no larger than a set that contains it. */
  lemma CardinalSubconjunto<T>(a: set<T>, b: set<T>)
    requires a <= b
    ensures |a| <= |b|
    ensures a < b ==> |a| < |b|
  {
    assert b == a + (b - a);
    assert a * (b - a) == {};
    assert a < b ==> (b - a) != {};
  }

  /** A set of positions below `n` has at most `n` elements. */
  lemma CardinalFaixa(a: set<nat>, n: nat)
    requires forall x :: x in a ==> x < n
    ensures |a| <= n
  {
    CardinalSubconjunto(a, Faixa(n));
  }
}
