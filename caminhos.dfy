/** Walks, reachability and the tree shape of the traversal outputs. */
module Caminhos {
  import opened Entidades

  /** The vertex a walk that starts at `s` and follows the entries `es` ends at. */
  function FimPasseio(s: nat, es: seq<Adjacente>): nat {
    if es == [] then s else es[|es| - 1].vizinho
  }

  /** `es` is a walk from `s`: each entry belongs to the list of the vertex the
      walk has reached so far. */
  ghost predicate EhPasseio(vs: seq<Vertice>, s: nat, es: seq<Adjacente>) {
    s < |vs| &&
    (es == [] ||
      (var init := es[..|es| - 1];
       EhPasseio(vs, s, init) && FimPasseio(s, init) < |vs| &&
       es[|es| - 1] in vs[FimPasseio(s, init)].adjacentes && es[|es| - 1].vizinho < |vs|))
  }

  /** The total weight of a walk. */
  function PesoPasseio(es: seq<Adjacente>): int {
    if es == [] then 0 else PesoPasseio(es[..|es| - 1]) + es[|es| - 1].peso
  }

  /** `t` is reachable from `s` by following adjacency entries. */
  ghost predicate Alcanca(vs: seq<Vertice>, s: nat, t: nat) {
    exists es :: EhPasseio(vs, s, es) && FimPasseio(s, es) == t
  }

  /** No entry leaves the set `c`. */
  ghost predicate Fechado(vs: seq<Vertice>, c: set<nat>) {
    forall x, e :: x in c && x < |vs| && e in vs[x].adjacentes ==> e.vizinho in c
  }

  /** Every entry out of a vertex of `f` leads into `c`: the vertices of `f` are
      finished with respect to the vertices collected in `c`. */
  ghost predicate Terminados(vs: seq<Vertice>, f: set<nat>, c: set<nat>) {
    forall x, e :: x in f && x < |vs| && e in vs[x].adjacentes ==> e.vizinho in c
  }

  lemma {:induction false} FimPasseioValido(vs: seq<Vertice>, s: nat, es: seq<Adjacente>)
    requires EhPasseio(vs, s, es)
    ensures FimPasseio(s, es) < |vs|
  {
  }

  lemma AlcancaReflexivo(vs: seq<Vertice>, s: nat)
    requires s < |vs|
    ensures Alcanca(vs, s, s)
  {
    assert EhPasseio(vs, s, []) && FimPasseio(s, []) == s;
  }

  /** Following one more entry keeps a vertex reachable. */
  lemma AlcancaPasso(vs: seq<Vertice>, s: nat, u: nat, e: Adjacente)
    requires BemFormado(vs)
    requires Alcanca(vs, s, u) && u < |vs| && e in vs[u].adjacentes
    ensures Alcanca(vs, s, e.vizinho)
  {
    var es :| EhPasseio(vs, s, es) && FimPasseio(s, es) == u;
    var es' := es + [e];
    assert es'[..|es'| - 1] == es;
    assert EhPasseio(vs, s, es') && FimPasseio(s, es') == e.vizinho;
  }

  /** Two walks that meet end to start make one walk. */
  lemma {:induction false} PasseioConcatenado(vs: seq<Vertice>, s: nat, a: seq<Adjacente>, b: seq<Adjacente>)
    requires EhPasseio(vs, s, a) && EhPasseio(vs, FimPasseio(s, a), b)
    ensures EhPasseio(vs, s, a + b) && FimPasseio(s, a + b) == FimPasseio(FimPasseio(s, a), b)
    ensures PesoPasseio(a + b) == PesoPasseio(a) + PesoPasseio(b)
    decreases |b|
  {
    var m := FimPasseio(s, a);
    if b == [] {
      assert a + b == a;
    } else {
      var init, last := b[..|b| - 1], b[|b| - 1];
      assert EhPasseio(vs, m, init) && FimPasseio(m, init) < |vs|;
      assert last in vs[FimPasseio(m, init)].adjacentes && last.vizinho < |vs|;
      PasseioConcatenado(vs, s, a, init);
      var ab := a + b;
      assert ab[..|ab| - 1] == a + init && ab[|ab| - 1] == last;
      assert FimPasseio(s, ab) == last.vizinho;
    }
  }

  lemma AlcancaTransitivo(vs: seq<Vertice>, s: nat, u: nat, t: nat)
    requires Alcanca(vs, s, u) && Alcanca(vs, u, t)
    ensures Alcanca(vs, s, t)
  {
    var a :| EhPasseio(vs, s, a) && FimPasseio(s, a) == u;
    var b :| EhPasseio(vs, u, b) && FimPasseio(u, b) == t;
    PasseioConcatenado(vs, s, a, b);
  }

  /** A closed set that holds `s` holds every vertex reachable from `s`. */
  lemma {:induction false} FechadoContemPasseio(vs: seq<Vertice>, c: set<nat>, s: nat, es: seq<Adjacente>)
    requires Fechado(vs, c) && s in c && EhPasseio(vs, s, es)
    ensures FimPasseio(s, es) in c
    decreases |es|
  {
    if es != [] {
      FechadoContemPasseio(vs, c, s, es[..|es| - 1]);
    }
  }

  lemma FechadoContemAlcancaveis(vs: seq<Vertice>, c: set<nat>, s: nat, t: nat)
    requires Fechado(vs, c) && s in c && Alcanca(vs, s, t)
    ensures t in c
  {
    var es :| EhPasseio(vs, s, es) && FimPasseio(s, es) == t;
    FechadoContemPasseio(vs, c, s, es);
  }

  /** The vertices a list of tree edges grown from `s` has reached: `s` and every
      destination. */
  function Visitados(s: nat, es: seq<Aresta>): (r: set<nat>)
    ensures s in r
  {
    if es == [] then {s} else Visitados(s, es[..|es| - 1]) + {es[|es| - 1].destino}
  }

  /** `es` grows a tree from `s`: each edge leaves an already reached vertex for
      one not reached yet. */
  ghost predicate Cresce(s: nat, es: seq<Aresta>) {
    es == [] ||
    (var init := es[..|es| - 1];
     Cresce(s, init) && es[|es| - 1].origem in Visitados(s, init) &&
     es[|es| - 1].destino !in Visitados(s, init))
  }

  lemma {:induction false} CresceTamanho(s: nat, es: seq<Aresta>)
    requires Cresce(s, es)
    ensures |Visitados(s, es)| == |es| + 1
  {
    if es != [] {
      CresceTamanho(s, es[..|es| - 1]);
    }
  }

  /** A tree grown inside `n` vertices has at most `n - 1` edges. */
  lemma CresceLimite(s: nat, es: seq<Aresta>, n: nat)
    requires Cresce(s, es) && forall x :: x in Visitados(s, es) ==> x < n
    ensures |es| < n
  {
    CresceTamanho(s, es);
    CardinalFaixa(Visitados(s, es), n);
  }

  lemma {:induction false} VisitadosPrefixo(s: nat, es: seq<Aresta>, k: nat)
    requires k <= |es|
    ensures Visitados(s, es[..k]) <= Visitados(s, es)
    decreases |es|
  {
    if k < |es| {
      assert es[..|es| - 1][..k] == es[..k];
      VisitadosPrefixo(s, es[..|es| - 1], k);
    } else {
      assert es[..k] == es;
    }
  }

  lemma {:induction false} CrescePrefixo(s: nat, es: seq<Aresta>, k: nat)
    requires Cresce(s, es) && k <= |es|
    ensures Cresce(s, es[..k])
    decreases |es|
  {
    if k < |es| {
      assert es[..|es| - 1][..k] == es[..k];
      CrescePrefixo(s, es[..|es| - 1], k);
    } else {
      assert es[..k] == es;
    }
  }

  /** In a grown tree no vertex is reached twice and the root is never a destination. */
  lemma {:induction false} CresceDestinosDistintos(s: nat, es: seq<Aresta>)
    requires Cresce(s, es)
    ensures forall i :: 0 <= i < |es| ==> es[i].destino != s
    ensures forall i, j :: 0 <= i < j < |es| ==> es[i].destino != es[j].destino
  {
    if es != [] {
      var init := es[..|es| - 1];
      CresceDestinosDistintos(s, init);
      forall i | 0 <= i < |init| ensures es[i].destino in Visitados(s, init) {
        VisitadosPrefixo(s, init, i + 1);
        assert init[..i + 1][..i] == init[..i];
      }
    }
  }

  /** The edges of a grown tree join only reached vertices. */
  lemma {:induction false} CresceExtremos(s: nat, es: seq<Aresta>)
    requires Cresce(s, es)
    ensures forall i :: 0 <= i < |es| ==> es[i].origem in Visitados(s, es) && es[i].destino in Visitados(s, es)
  {
    if es != [] {
      var init := es[..|es| - 1];
      CresceExtremos(s, init);
    }
  }

  /** Every edge of `es` stands for an adjacency entry of its origin. */
  ghost predicate Reais(vs: seq<Vertice>, es: seq<Aresta>) {
    forall k :: 0 <= k < |es| ==>
      es[k].origem < |vs| && Adjacente(es[k].destino, es[k].peso) in vs[es[k].origem].adjacentes
  }

  /** A tree grown along real entries reaches only vertices reachable from its root. */
  lemma {:induction false} CresceAlcancaveis(vs: seq<Vertice>, s: nat, es: seq<Aresta>)
    requires BemFormado(vs) && s < |vs|
    requires Cresce(s, es) && Reais(vs, es)
    ensures forall t :: t in Visitados(s, es) ==> t < |vs| && Alcanca(vs, s, t)
  {
    if es == [] {
      AlcancaReflexivo(vs, s);
    } else {
      var init := es[..|es| - 1];
      var a := es[|es| - 1];
      assert Reais(vs, init) by {
        forall k | 0 <= k < |init| ensures init[k] == es[k] { }
      }
      CresceAlcancaveis(vs, s, init);
      assert a.origem in Visitados(s, init);
      AlcancaPasso(vs, s, a.origem, Adjacente(a.destino, a.peso));
    }
  }
  /** Every edge carries the hyphenated name of its two ends. */
  predicate Rotuladas(vs: seq<Vertice>, es: seq<Aresta>) {
    forall k :: 0 <= k < |es| ==> es[k].nome == Rotulo(vs, es[k].origem, es[k].destino)
  }

  /** A tree grows by an edge from a reached vertex to an unreached one. */
  lemma CresceAnexo(s: nat, es: seq<Aresta>, a: Aresta)
    requires Cresce(s, es) && a.origem in Visitados(s, es) && a.destino !in Visitados(s, es)
    ensures Cresce(s, es + [a]) && Visitados(s, es + [a]) == Visitados(s, es) + {a.destino}
  {
    assert (es + [a])[..|es|] == es;
  }

  /** An edge standing for an entry keeps the list real. */
  lemma ReaisAnexo(vs: seq<Vertice>, es: seq<Aresta>, a: Aresta)
    requires Reais(vs, es) && a.origem < |vs| && Adjacente(a.destino, a.peso) in vs[a.origem].adjacentes
    ensures Reais(vs, es + [a])
  {
  }
  /** A tree grown along real entries whose reached set no entry leaves spans
      exactly the vertices reachable from its root. */
  lemma ArvoreAbrange(vs: seq<Vertice>, s: nat, es: seq<Aresta>)
    requires BemFormado(vs) && s < |vs| && Cresce(s, es) && Reais(vs, es)
    requires Fechado(vs, Visitados(s, es))
    ensures forall t: nat :: t in Visitados(s, es) <==> t < |vs| && Alcanca(vs, s, t)
  {
    CresceAlcancaveis(vs, s, es);
    forall t: nat | t < |vs| && Alcanca(vs, s, t) ensures t in Visitados(s, es) {
      FechadoContemAlcancaveis(vs, Visitados(s, es), s, t);
    }
  }
  /** The vertices reachable from `s`. */
  ghost function Alcancaveis(vs: seq<Vertice>, s: nat): set<nat> {
    set t: nat | t < |vs| && Alcanca(vs, s, t)
  }

  /** A tree grown from `s` that reaches exactly what `s` reaches has one edge
      fewer than there are reachable vertices, enters each vertex at most once
      and never enters `s`. */
  lemma FormaDeArvore(vs: seq<Vertice>, s: nat, es: seq<Aresta>)
    requires Cresce(s, es)
    requires forall t: nat :: t in Visitados(s, es) <==> t < |vs| && Alcanca(vs, s, t)
    ensures |es| + 1 == |Alcancaveis(vs, s)|
    ensures forall i :: 0 <= i < |es| ==> es[i].destino != s
    ensures forall i, j :: 0 <= i < j < |es| ==> es[i].destino != es[j].destino
  {
    CresceTamanho(s, es);
    CresceDestinosDistintos(s, es);
    assert Visitados(s, es) == Alcancaveis(vs, s);
  }

  /** The state of a search from `s`: `arvore` is a tree grown along real entries
      with named edges, and `visitados` is exactly the set it reaches. */
  ghost predicate ArvoreDeBusca(vs: seq<Vertice>, s: nat, arvore: seq<Aresta>, visitados: set<nat>) {
    visitados == Visitados(s, arvore) && Cresce(s, arvore) && Reais(vs, arvore) && Rotuladas(vs, arvore) &&
    forall x :: x in visitados ==> x < |vs|
  }

  /** A search adds the edge for an entry from a visited vertex to an unvisited one. */
  lemma ArvoreDeBuscaAnexo(vs: seq<Vertice>, s: nat, arvore: seq<Aresta>, visitados: set<nat>, u: nat, k: nat)
    requires BemFormado(vs) && ArvoreDeBusca(vs, s, arvore, visitados)
    requires u in visitados && k < |vs[u].adjacentes| && vs[u].adjacentes[k].vizinho !in visitados
    ensures var e := vs[u].adjacentes[k];
      ArvoreDeBusca(vs, s, arvore + [Aresta(u, e.vizinho, e.peso, Rotulo(vs, u, e.vizinho))], visitados + {e.vizinho})
  {
    var e := vs[u].adjacentes[k];
    assert e in vs[u].adjacentes;
    var a := Aresta(u, e.vizinho, e.peso, Rotulo(vs, u, e.vizinho));
    CresceAnexo(s, arvore, a);
    ReaisAnexo(vs, arvore, a);
  }
  /** A vertex whose entries all lead into `c'` joins the finished vertices,
      and finished vertices stay finished as `c` grows. */
  lemma TerminadosAmplia(vs: seq<Vertice>, f: set<nat>, c: set<nat>, c': set<nat>, u: nat)
    requires Terminados(vs, f, c) && c <= c' && u < |vs|
    requires forall i :: 0 <= i < |vs[u].adjacentes| ==> vs[u].adjacentes[i].vizinho in c'
    ensures Terminados(vs, f + {u}, c')
  {
    forall x, e | x in f + {u} && x < |vs| && e in vs[x].adjacentes ensures e.vizinho in c' {
      if x == u {
        var i :| 0 <= i < |vs[u].adjacentes| && vs[u].adjacentes[i] == e;
      }
    }
  }
  /** Finished parts combine, and finished vertices stay finished as `c` grows. */
  lemma TerminadosUniao(vs: seq<Vertice>, f: set<nat>, c: set<nat>, g: set<nat>, c': set<nat>)
    requires Terminados(vs, f, c) && c <= c' && Terminados(vs, g, c')
    ensures Terminados(vs, f + g, c')
  {
  }
}
