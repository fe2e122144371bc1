/** The states of the two searches, breadth-first and depth-first, and the
    step lemmas that carry them from one entry to the next. */
module Buscas {
  import opened Entidades
  import opened Caminhos

  // ----- breadth-first search -----

  /** Between two rounds of the breadth-first loop: the tree and its visited set,
      a queue of visited vertices, and the dequeued vertices, all of whose
      entries lead to visited vertices; a visited vertex is dequeued or queued. */
  ghost predicate EstadoLargura(vs: seq<Vertice>, s: nat, arvore: seq<Aresta>, visitados: set<nat>,
                                fila: seq<nat>, feitos: set<nat>) {
    ArvoreDeBusca(vs, s, arvore, visitados) &&
    (forall i :: 0 <= i < |fila| ==> fila[i] in visitados) &&
    feitos <= visitados && Terminados(vs, feitos, visitados) &&
    (forall x :: x in visitados ==> x in feitos || x in fila)
  }

  /** While the entries of `atual` are scanned, after the first `j` of them:
      `antes` and `fila0` are the visited set and the queue when the scan began. */
  ghost predicate EstadoVizinhos(vs: seq<Vertice>, s: nat, arvore: seq<Aresta>, visitados: set<nat>,
                                 fila: seq<nat>, feitos: set<nat>, atual: nat,
                                 antes: set<nat>, fila0: seq<nat>, j: nat) {
    atual < |vs| && j <= |vs[atual].adjacentes| &&
    ArvoreDeBusca(vs, s, arvore, visitados) && antes <= visitados && atual in antes &&
    (forall i :: 0 <= i < |fila| ==> fila[i] in visitados) &&
    feitos <= antes && Terminados(vs, feitos, antes) &&
    (forall x :: x in visitados ==> x in feitos || x in fila || x == atual) &&
    (forall i :: 0 <= i < j ==> vs[atual].adjacentes[i].vizinho in visitados) &&
    (antes < visitados || (visitados == antes && fila == fila0))
  }

  lemma LarguraInicio(vs: seq<Vertice>, s: nat)
    requires s < |vs|
    ensures EstadoLargura(vs, s, [], {s}, [s], {})
  {
  }

  /** Dequeuing the head starts the scan of its entries. */
  lemma LarguraRetira(vs: seq<Vertice>, s: nat, arvore: seq<Aresta>, visitados: set<nat>,
                      fila: seq<nat>, feitos: set<nat>)
    requires EstadoLargura(vs, s, arvore, visitados, fila, feitos) && |fila| > 0
    ensures EstadoVizinhos(vs, s, arvore, visitados, fila[1..], feitos, fila[0], visitados, fila[1..], 0)
  {
    forall x | x in visitados ensures x in feitos || x in fila[1..] || x == fila[0] {
      if x !in feitos {
        var i :| 0 <= i < |fila| && fila[i] == x;
        if i > 0 { assert fila[1..][i - 1] == x; }
      }
    }
    forall i | 0 <= i < |fila[1..]| ensures fila[1..][i] in visitados {
      assert fila[1..][i] == fila[i + 1];
    }
  }

  /** One entry scanned: a neighbour not yet visited is visited, queued, and
      reached by a new tree edge; otherwise nothing changes. */
  lemma LarguraPasso(vs: seq<Vertice>, s: nat, arvore: seq<Aresta>, visitados: set<nat>,
                     fila: seq<nat>, feitos: set<nat>, atual: nat, antes: set<nat>, fila0: seq<nat>, j: nat)
    requires BemFormado(vs) && EstadoVizinhos(vs, s, arvore, visitados, fila, feitos, atual, antes, fila0, j)
    requires j < |vs[atual].adjacentes|
    ensures var e := vs[atual].adjacentes[j];
      if e.vizinho in visitados then EstadoVizinhos(vs, s, arvore, visitados, fila, feitos, atual, antes, fila0, j + 1)
      else EstadoVizinhos(vs, s, arvore + [Aresta(atual, e.vizinho, e.peso, Rotulo(vs, atual, e.vizinho))],
                          visitados + {e.vizinho}, fila + [e.vizinho], feitos, atual, antes, fila0, j + 1)
  {
    var e := vs[atual].adjacentes[j];
    if e.vizinho !in visitados {
      ArvoreDeBuscaAnexo(vs, s, arvore, visitados, atual, j);
      var fila' := fila + [e.vizinho];
      forall i | 0 <= i < |fila'| ensures fila'[i] in visitados + {e.vizinho} {
        if i < |fila| { assert fila'[i] == fila[i]; }
      }
      assert e.vizinho in fila';
      forall x | x in visitados + {e.vizinho} ensures x in feitos || x in fila' || x == atual {
        if x in fila { var i :| 0 <= i < |fila| && fila[i] == x; assert fila'[i] == x; }
      }
    }
  }

  /** A scanned vertex is finished, and the scan made progress or changed nothing. */
  lemma LarguraFimVizinhos(vs: seq<Vertice>, s: nat, arvore: seq<Aresta>, visitados: set<nat>,
                           fila: seq<nat>, feitos: set<nat>, atual: nat, antes: set<nat>, fila0: seq<nat>)
    requires EstadoVizinhos(vs, s, arvore, visitados, fila, feitos, atual, antes, fila0, |Adj(vs, atual)|)
    ensures EstadoLargura(vs, s, arvore, visitados, fila, feitos + {atual})
    ensures |visitados| <= |vs|
    ensures |antes| < |visitados| || (visitados == antes && fila == fila0)
  {
    TerminadosAmplia(vs, feitos, antes, visitados, atual);
    CardinalFaixa(visitados, |vs|);
    CardinalSubconjunto(antes, visitados);
  }

  /** An empty queue leaves a tree that spans what the root reaches. */
  lemma LarguraFim(vs: seq<Vertice>, s: nat, arvore: seq<Aresta>, visitados: set<nat>, feitos: set<nat>)
    requires BemFormado(vs) && s < |vs| && EstadoLargura(vs, s, arvore, visitados, [], feitos)
    ensures Cresce(s, arvore) && Reais(vs, arvore) && Rotuladas(vs, arvore)
    ensures forall t: nat :: t in Visitados(s, arvore) <==> t < |vs| && Alcanca(vs, s, t)
  {
    assert visitados == feitos;
    ArvoreAbrange(vs, s, arvore);
  }
  // ----- depth-first search -----

  /** While `DFS(v)` scans its entries, after the first `j` of them: `visitados0` is
      the visited set the call began with; every vertex visited since, `v` aside,
      is finished. */
  ghost predicate EstadoProfundidade(vs: seq<Vertice>, s: nat, arvore: seq<Aresta>, visitados: set<nat>,
                                     visitados0: set<nat>, v: nat, j: nat) {
    v < |vs| && j <= |vs[v].adjacentes| &&
    ArvoreDeBusca(vs, s, arvore, visitados) && visitados0 + {v} <= visitados && v !in visitados0 &&
    Terminados(vs, visitados - visitados0 - {v}, visitados) &&
    (forall i :: 0 <= i < j ==> vs[v].adjacentes[i].vizinho in visitados)
  }

  /** What a call `DFS(v)` that began with `visitados0` promises on return. */
  ghost predicate ChamadaProfundidade(vs: seq<Vertice>, s: nat, arvore: seq<Aresta>, visitados: set<nat>,
                                      visitados0: set<nat>, v: nat) {
    ArvoreDeBusca(vs, s, arvore, visitados) && visitados0 + {v} <= visitados &&
    Terminados(vs, visitados - visitados0, visitados)
  }

  lemma ProfundidadeInicio(vs: seq<Vertice>, s: nat, arvore: seq<Aresta>, visitados0: set<nat>, v: nat)
    requires v < |vs| && v !in visitados0 && ArvoreDeBusca(vs, s, arvore, visitados0 + {v})
    ensures EstadoProfundidade(vs, s, arvore, visitados0 + {v}, visitados0, v, 0)
  {
  }

  /** Before the recursive call on an unvisited neighbour: its tree edge is added,
      and the visited set has grown since `visitados0`. */
  lemma ProfundidadeDesce(vs: seq<Vertice>, s: nat, arvore: seq<Aresta>, visitados: set<nat>,
                          visitados0: set<nat>, v: nat, j: nat)
    requires BemFormado(vs) && EstadoProfundidade(vs, s, arvore, visitados, visitados0, v, j)
    requires j < |vs[v].adjacentes| && vs[v].adjacentes[j].vizinho !in visitados
    ensures var e := vs[v].adjacentes[j];
      e.vizinho < |vs| &&
      ArvoreDeBusca(vs, s, arvore + [Aresta(v, e.vizinho, e.peso, Rotulo(vs, v, e.vizinho))], visitados + {e.vizinho})
    ensures |visitados0| < |visitados| <= |vs|
  {
    ArvoreDeBuscaAnexo(vs, s, arvore, visitados, v, j);
    assert vs[v].adjacentes[j] in vs[v].adjacentes;
    CardinalFaixa(visitados, |vs|);
    CardinalSubconjunto(visitados0, visitados);
  }

  /** After the recursive call returns, the scan moves past the entry. */
  lemma ProfundidadeSobe(vs: seq<Vertice>, s: nat, arvore: seq<Aresta>, visitados: set<nat>,
                         visitados0: set<nat>, v: nat, j: nat, arvore': seq<Aresta>, visitados': set<nat>)
    requires EstadoProfundidade(vs, s, arvore, visitados, visitados0, v, j)
    requires j < |vs[v].adjacentes| && vs[v].adjacentes[j].vizinho !in visitados
    requires ChamadaProfundidade(vs, s, arvore', visitados', visitados, vs[v].adjacentes[j].vizinho)
    ensures EstadoProfundidade(vs, s, arvore', visitados', visitados0, v, j + 1)
  {
    TerminadosUniao(vs, visitados - visitados0 - {v}, visitados, visitados' - visitados, visitados');
    assert visitados' - visitados0 - {v} == (visitados - visitados0 - {v}) + (visitados' - visitados);
  }

  /** An entry to a visited vertex is passed over. */
  lemma ProfundidadePula(vs: seq<Vertice>, s: nat, arvore: seq<Aresta>, visitados: set<nat>,
                         visitados0: set<nat>, v: nat, j: nat)
    requires EstadoProfundidade(vs, s, arvore, visitados, visitados0, v, j)
    requires j < |vs[v].adjacentes| && vs[v].adjacentes[j].vizinho in visitados
    ensures EstadoProfundidade(vs, s, arvore, visitados, visitados0, v, j + 1)
  {
  }

  /** Once every entry is scanned, `v` is finished too. */
  lemma ProfundidadeFim(vs: seq<Vertice>, s: nat, arvore: seq<Aresta>, visitados: set<nat>,
                        visitados0: set<nat>, v: nat)
    requires EstadoProfundidade(vs, s, arvore, visitados, visitados0, v, |Adj(vs, v)|)
    ensures ChamadaProfundidade(vs, s, arvore, visitados, visitados0, v)
  {
    TerminadosAmplia(vs, visitados - visitados0 - {v}, visitados, visitados, v);
    assert visitados - visitados0 == (visitados - visitados0 - {v}) + {v};
  }

  /** The outermost call leaves a tree that spans what the root reaches. */
  lemma ProfundidadeAbrange(vs: seq<Vertice>, s: nat, arvore: seq<Aresta>, visitados: set<nat>)
    requires BemFormado(vs) && s < |vs| && ChamadaProfundidade(vs, s, arvore, visitados, {}, s)
    ensures Cresce(s, arvore) && Reais(vs, arvore) && Rotuladas(vs, arvore)
    ensures forall t: nat :: t in Visitados(s, arvore) <==> t < |vs| && Alcanca(vs, s, t)
  {
    assert visitados - {} == visitados;
    ArvoreAbrange(vs, s, arvore);
  }
}
