/** The specification of Prim's algorithm as the engine runs it: the start
    vertex, the frontier list of candidate edges after each step, the stable
    choice of the lightest crossing edge, and what follows from them (the cut
    property and that the tree spans exactly the start vertex's reachable set). */
module Prim {
  import opened Entidades
  import opened Caminhos

  /** The sum of the weights of a vertex's entries. */
  function SomaPesos(adj: seq<Adjacente>): int {
    if adj == [] then 0 else SomaPesos(adj[..|adj| - 1]) + adj[|adj| - 1].peso
  }

  /** Among the first `m` vertices, the first one whose weight sum is least
      (a stable sort by sum, then its head). */
  function MenorSomaAte(vs: seq<Vertice>, m: nat): (s: nat)
    requires 0 < m <= |vs|
    ensures s < m
    ensures forall k :: 0 <= k < m ==> SomaPesos(vs[s].adjacentes) <= SomaPesos(vs[k].adjacentes)
    ensures forall k :: 0 <= k < s ==> SomaPesos(vs[k].adjacentes) > SomaPesos(vs[s].adjacentes)
  {
    if m == 1 then 0
    else
      var p := MenorSomaAte(vs, m - 1);
      if SomaPesos(vs[m - 1].adjacentes) < SomaPesos(vs[p].adjacentes) then m - 1 else p
  }

  /** The start vertex: the first vertex in insertion order whose weight sum is minimal. */
  function InicialPrim(vs: seq<Vertice>): (s: nat)
    requires |vs| > 0
    ensures s < |vs|
  {
    MenorSomaAte(vs, |vs|)
  }

  /** Every edge the engine builds is labelled with the start vertex's name, the
      non-initial ones included. */
  function RotuloPrim(vs: seq<Vertice>, s: nat, destino: nat): string {
    Rotulo(vs, s, destino)
  }

  /** The initial frontier: every entry of the start vertex, as an edge. */
  function Semente(vs: seq<Vertice>, s: nat, m: nat): (f: seq<Aresta>)
    requires m <= |Adj(vs, s)|
    ensures |f| == m
    ensures forall j :: 0 <= j < m ==>
      f[j] == Aresta(s, Adj(vs, s)[j].vizinho, Adj(vs, s)[j].peso, RotuloPrim(vs, s, Adj(vs, s)[j].vizinho))
  {
    if m == 0 then []
    else
      var e := Adj(vs, s)[m - 1];
      Semente(vs, s, m - 1) + [Aresta(s, e.vizinho, e.peso, RotuloPrim(vs, s, e.vizinho))]
  }

  /** The frontier growth when `novo` joins: its first `m` entries whose neighbour
      is not yet visited, as edges out of `novo`. */
  function Expansao(vs: seq<Vertice>, s: nat, novo: nat, visitados: set<nat>, m: nat): (f: seq<Aresta>)
    requires m <= |Adj(vs, novo)|
    ensures forall a :: a in f ==> a.origem == novo && Adjacente(a.destino, a.peso) in Adj(vs, novo)
    ensures forall j :: 0 <= j < m && Adj(vs, novo)[j].vizinho !in visitados ==>
      exists a :: a in f && a.destino == Adj(vs, novo)[j].vizinho && a.peso == Adj(vs, novo)[j].peso
  {
    if m == 0 then []
    else
      var e := Adj(vs, novo)[m - 1];
      var f0 := Expansao(vs, s, novo, visitados, m - 1);
      if e.vizinho !in visitados then
        var a := Aresta(novo, e.vizinho, e.peso, RotuloPrim(vs, s, e.vizinho));
        assert a in f0 + [a];
        f0 + [a]
      else f0
  }

  /** `arestasDisponiveis` once the edges `mst` have been chosen. */
  function Fronteira(vs: seq<Vertice>, s: nat, mst: seq<Aresta>): seq<Aresta> {
    if mst == [] then Semente(vs, s, |Adj(vs, s)|)
    else
      var novo := mst[|mst| - 1].destino;
      Fronteira(vs, s, mst[..|mst| - 1]) + Expansao(vs, s, novo, Visitados(s, mst), |Adj(vs, novo)|)
  }

  /** An edge with exactly one visited endpoint. */
  predicate Cruza(a: Aresta, visitados: set<nat>) {
    (a.origem in visitados && a.destino !in visitados) || (a.destino in visitados && a.origem !in visitados)
  }

  /** The frontier sorted stably by weight, then its first crossing edge: `k` is a
      crossing edge of least weight, and every crossing edge before it is strictly heavier. */
  predicate Escolhida(f: seq<Aresta>, visitados: set<nat>, k: nat) {
    k < |f| && Cruza(f[k], visitados) &&
    (forall j :: 0 <= j < |f| && Cruza(f[j], visitados) ==> f[k].peso <= f[j].peso) &&
    (forall j :: 0 <= j < k && Cruza(f[j], visitados) ==> f[k].peso < f[j].peso)
  }

  /** The edge the engine picks from a frontier, if any edge crosses. */
  function MenorCruzando(f: seq<Aresta>, visitados: set<nat>): (r: Option<nat>)
    ensures r.None? <==> forall j :: 0 <= j < |f| ==> !Cruza(f[j], visitados)
    ensures r.Some? ==> Escolhida(f, visitados, r.value)
  {
    if f == [] then None
    else
      var init := f[..|f| - 1];
      var p := MenorCruzando(init, visitados);
      var last := f[|f| - 1];
      if Cruza(last, visitados) && (p.None? || last.peso < f[p.value].peso) then Some(|f| - 1) else p
  }

  /** From the frontier after the edges `pref`, the engine picks `a`. */
  ghost predicate EscolheDe(vs: seq<Vertice>, s: nat, pref: seq<Aresta>, a: Aresta) {
    var f := Fronteira(vs, s, pref);
    var c := MenorCruzando(f, Visitados(s, pref));
    c.Some? && f[c.value] == a
  }

  /** Step `k` of the run picked `mst[k]` as the engine does. */
  ghost predicate PassoPrim(vs: seq<Vertice>, s: nat, mst: seq<Aresta>, k: nat)
    requires k < |mst|
  {
    EscolheDe(vs, s, mst[..k], mst[k])
  }

  /** The loop has stopped: every vertex is visited or no frontier edge crosses. */
  ghost predicate FimPrim(vs: seq<Vertice>, s: nat, mst: seq<Aresta>) {
    |Visitados(s, mst)| >= |vs| || MenorCruzando(Fronteira(vs, s, mst), Visitados(s, mst)).None?
  }

  /** Every frontier edge leaves a visited vertex along one of its entries. */
  lemma {:induction false} FronteiraOrigens(vs: seq<Vertice>, s: nat, mst: seq<Aresta>)
    ensures forall a :: a in Fronteira(vs, s, mst) ==>
      a.origem in Visitados(s, mst) && Adjacente(a.destino, a.peso) in Adj(vs, a.origem)
  {
    if mst != [] {
      var init := mst[..|mst| - 1];
      FronteiraOrigens(vs, s, init);
    } else {
      var f := Semente(vs, s, |Adj(vs, s)|);
      forall a | a in f ensures a.origem == s && Adjacente(a.destino, a.peso) in Adj(vs, s) {
        var j :| 0 <= j < |f| && f[j] == a;
        assert Adj(vs, s)[j] == Adjacente(a.destino, a.peso);
      }
    }
  }

  /** Every entry from a visited vertex to an unvisited one is on the frontier. */
  lemma {:induction false} FronteiraCompleta(vs: seq<Vertice>, s: nat, mst: seq<Aresta>, x: nat, e: Adjacente)
    requires x in Visitados(s, mst) && e in Adj(vs, x) && e.vizinho !in Visitados(s, mst)
    ensures exists a :: a in Fronteira(vs, s, mst) && a.origem == x && a.destino == e.vizinho && a.peso == e.peso
  {
    var f := Fronteira(vs, s, mst);
    if mst == [] {
      var j :| 0 <= j < |Adj(vs, s)| && Adj(vs, s)[j] == e;
      assert f[j] in f;
    } else {
      var init := mst[..|mst| - 1];
      var novo := mst[|mst| - 1].destino;
      if x in Visitados(s, init) {
        FronteiraCompleta(vs, s, init, x, e);
        var a :| a in Fronteira(vs, s, init) && a.origem == x && a.destino == e.vizinho && a.peso == e.peso;
        assert a in f;
      } else {
        assert x == novo;
        var ex := Expansao(vs, s, novo, Visitados(s, mst), |Adj(vs, novo)|);
        var j :| 0 <= j < |Adj(vs, novo)| && Adj(vs, novo)[j] == e;
        var a :| a in ex && a.destino == e.vizinho && a.peso == e.peso;
        assert a in f;
      }
    }
  }

  /** The cut property of each step: the chosen edge is no heavier than any entry
      from a visited vertex to an unvisited one. */
  lemma PrimCorte(vs: seq<Vertice>, s: nat, mst: seq<Aresta>, k: nat, x: nat, e: Adjacente)
    requires k < |mst| && PassoPrim(vs, s, mst, k)
    requires x in Visitados(s, mst[..k]) && e in Adj(vs, x) && e.vizinho !in Visitados(s, mst[..k])
    ensures mst[k].peso <= e.peso
  {
    FronteiraCompleta(vs, s, mst[..k], x, e);
  }

  /** A picked edge leaves a visited vertex, along one of its entries, for an
      unvisited one. */
  lemma EscolhaValida(vs: seq<Vertice>, s: nat, pref: seq<Aresta>, a: Aresta)
    requires EscolheDe(vs, s, pref, a)
    ensures a.origem in Visitados(s, pref) && a.destino !in Visitados(s, pref)
    ensures Adjacente(a.destino, a.peso) in Adj(vs, a.origem)
  {
    FronteiraOrigens(vs, s, pref);
    var f := Fronteira(vs, s, pref);
    var c := MenorCruzando(f, Visitados(s, pref));
    assert f[c.value] in f;
  }

  /** Every edge of `mst` was picked as the engine picks, from the frontier of
      the edges before it. */
  ghost predicate PassosPrim(vs: seq<Vertice>, s: nat, mst: seq<Aresta>) {
    mst == [] ||
    (PassosPrim(vs, s, mst[..|mst| - 1]) && EscolheDe(vs, s, mst[..|mst| - 1], mst[|mst| - 1]))
  }

  /** The same, step by step. */
  lemma {:induction false} PassosTodos(vs: seq<Vertice>, s: nat, mst: seq<Aresta>)
    requires PassosPrim(vs, s, mst)
    ensures forall k :: 0 <= k < |mst| ==> PassoPrim(vs, s, mst, k)
  {
    if mst != [] {
      var init := mst[..|mst| - 1];
      PassosTodos(vs, s, init);
      forall k | 0 <= k < |mst| ensures PassoPrim(vs, s, mst, k) {
        if k < |init| {
          assert init[..k] == mst[..k] && init[k] == mst[k];
          assert PassoPrim(vs, s, init, k);
        }
      }
    }
  }

  /** The run's edges grow a tree from the start vertex along real entries. */
  lemma {:induction false} PrimCresce(vs: seq<Vertice>, s: nat, mst: seq<Aresta>)
    requires PassosPrim(vs, s, mst)
    ensures Cresce(s, mst) && Reais(vs, mst)
  {
    if mst != [] {
      var init, a := mst[..|mst| - 1], mst[|mst| - 1];
      assert mst == init + [a];
      PrimCresce(vs, s, init);
      EscolhaValida(vs, s, init, a);
      CresceAnexo(s, init, a);
      ReaisAnexo(vs, init, a);
    }
  }

  /** With no crossing frontier edge left, no entry leaves the visited set. */
  lemma PrimFechado(vs: seq<Vertice>, s: nat, mst: seq<Aresta>)
    requires MenorCruzando(Fronteira(vs, s, mst), Visitados(s, mst)).None?
    ensures Fechado(vs, Visitados(s, mst))
  {
    var V := Visitados(s, mst);
    var f := Fronteira(vs, s, mst);
    forall x, e | x in V && x < |vs| && e in vs[x].adjacentes ensures e.vizinho in V {
      if e.vizinho !in V {
        assert e in Adj(vs, x);
        FronteiraCompleta(vs, s, mst, x, e);
      }
    }
  }

  /** A set of positions below `n` with `n` elements holds every position. */
  lemma CheioEhFaixa(V: set<nat>, n: nat)
    requires forall x :: x in V ==> x < n
    requires |V| >= n
    ensures forall t: nat :: t < n ==> t in V
  {
    assert V <= Faixa(n);
    if V < Faixa(n) { CardinalSubconjunto(V, Faixa(n)); }
    assert V == Faixa(n);
  }

  /** When the loop has stopped, the tree spans exactly the vertices reachable
      from the start vertex; it has at most one edge fewer than the graph has vertices. */
  lemma PrimAbrange(vs: seq<Vertice>, mst: seq<Aresta>)
    requires BemFormado(vs) && |vs| > 0
    requires PassosPrim(vs, InicialPrim(vs), mst)
    requires FimPrim(vs, InicialPrim(vs), mst)
    ensures forall t: nat :: t in Visitados(InicialPrim(vs), mst) <==> t < |vs| && Alcanca(vs, InicialPrim(vs), t)
    ensures |mst| < |vs|
  {
    var s := InicialPrim(vs);
    var V := Visitados(s, mst);
    PrimCresce(vs, s, mst);
    CresceAlcancaveis(vs, s, mst);
    CresceLimite(s, mst, |vs|);
    if |V| >= |vs| {
      CheioEhFaixa(V, |vs|);
    } else {
      PrimFechado(vs, s, mst);
      forall t: nat | Alcanca(vs, s, t) ensures t in V {
        FechadoContemAlcancaveis(vs, V, s, t);
      }
    }
  }
  // ----- the loop of the engine, step by step -----

  /** Between two rounds of the loop: the visited set and the frontier list are
      those of the edges chosen so far, each chosen as the engine chooses. */
  ghost predicate EstadoPrim(vs: seq<Vertice>, s: nat, mst: seq<Aresta>, visitados: set<nat>, disponiveis: seq<Aresta>) {
    s < |vs| && visitados == Visitados(s, mst) && disponiveis == Fronteira(vs, s, mst) &&
    PassosPrim(vs, s, mst) && (forall x :: x in visitados ==> x < |vs|)
  }

  lemma SementePasso(vs: seq<Vertice>, s: nat, j: nat)
    requires s < |vs| && j < |vs[s].adjacentes|
    ensures var e := vs[s].adjacentes[j];
      Semente(vs, s, j + 1) == Semente(vs, s, j) + [Aresta(s, e.vizinho, e.peso, vs[s].nome + "-" + NomeDe(vs, e.vizinho))]
  {
  }

  lemma PrimInicio(vs: seq<Vertice>, s: nat, disponiveis: seq<Aresta>)
    requires s < |vs| && disponiveis == Semente(vs, s, |vs[s].adjacentes|)
    ensures EstadoPrim(vs, s, [], {s}, disponiveis)
  {
  }

  /** One entry of the joining vertex scanned: an edge to an unvisited neighbour
      joins the frontier. */
  lemma ExpansaoPasso(vs: seq<Vertice>, s: nat, novo: nat, visitados: set<nat>, antes: seq<Aresta>,
                      disponiveis: seq<Aresta>, j: nat)
    requires novo < |vs| && j < |vs[novo].adjacentes|
    requires disponiveis == antes + Expansao(vs, s, novo, visitados, j)
    ensures var e := vs[novo].adjacentes[j];
      (if e.vizinho in visitados then disponiveis
       else disponiveis + [Aresta(novo, e.vizinho, e.peso, NomeDe(vs, s) + "-" + NomeDe(vs, e.vizinho))])
      == antes + Expansao(vs, s, novo, visitados, j + 1)
  {
    var e := vs[novo].adjacentes[j];
    if e.vizinho !in visitados {
      Anexo(antes, Expansao(vs, s, novo, visitados, j), Aresta(novo, e.vizinho, e.peso, RotuloPrim(vs, s, e.vizinho)));
    }
  }

  /** The chosen edge leaves the visited set for a new vertex; once the new
      vertex's entries are scanned, the state is that of one more chosen edge. */
  /** Choosing one more edge adds its destination to the visited set and its
      entries' expansion to the frontier. */
  lemma FronteiraAnexo(vs: seq<Vertice>, s: nat, mst: seq<Aresta>, a: Aresta)
    ensures Visitados(s, mst + [a]) == Visitados(s, mst) + {a.destino}
    ensures Fronteira(vs, s, mst + [a]) ==
      Fronteira(vs, s, mst) + Expansao(vs, s, a.destino, Visitados(s, mst) + {a.destino}, |Adj(vs, a.destino)|)
  {
    assert (mst + [a])[..|mst|] == mst;
  }

  /** An edge picked as the engine picks keeps every step of the run valid. */
  lemma PassosAnexo(vs: seq<Vertice>, s: nat, mst: seq<Aresta>, a: Aresta)
    requires PassosPrim(vs, s, mst) && EscolheDe(vs, s, mst, a)
    ensures PassosPrim(vs, s, mst + [a])
  {
    assert (mst + [a])[..|mst|] == mst;
  }

  /** The edge picked from the frontier crosses from a visited vertex to an
      unvisited one. */
  lemma PrimEscolha(vs: seq<Vertice>, s: nat, mst: seq<Aresta>, visitados: set<nat>, disponiveis: seq<Aresta>, c: nat)
    requires BemFormado(vs) && EstadoPrim(vs, s, mst, visitados, disponiveis)
    requires MenorCruzando(disponiveis, visitados) == Some(c)
    ensures c < |disponiveis| && EscolheDe(vs, s, mst, disponiveis[c])
    ensures var a := disponiveis[c];
      a.origem in visitados && a.destino !in visitados && a.destino < |vs|
  {
    var a := disponiveis[c];
    assert EscolheDe(vs, s, mst, a);
    EscolhaValida(vs, s, mst, a);
    assert Adjacente(a.destino, a.peso) in vs[a.origem].adjacentes;
  }

  /** Taking the picked edge moves the loop to its next state. */
  lemma PrimAvanca(vs: seq<Vertice>, s: nat, mst: seq<Aresta>, visitados: set<nat>, disponiveis: seq<Aresta>, a: Aresta)
    requires EstadoPrim(vs, s, mst, visitados, disponiveis) && EscolheDe(vs, s, mst, a) && a.destino < |vs|
    ensures |visitados + {a.destino}| <= |vs|
    ensures EstadoPrim(vs, s, mst + [a], visitados + {a.destino},
                       disponiveis + Expansao(vs, s, a.destino, visitados + {a.destino}, |Adj(vs, a.destino)|))
  {
    FronteiraAnexo(vs, s, mst, a);
    PassosAnexo(vs, s, mst, a);
    CardinalFaixa(visitados + {a.destino}, |vs|);
  }

  lemma PrimPasso(vs: seq<Vertice>, s: nat, mst: seq<Aresta>, visitados: set<nat>, disponiveis: seq<Aresta>, c: nat)
    requires BemFormado(vs) && EstadoPrim(vs, s, mst, visitados, disponiveis)
    requires MenorCruzando(disponiveis, visitados) == Some(c)
    ensures c < |disponiveis|
    ensures var a := disponiveis[c];
      a.origem in visitados && a.destino !in visitados && a.destino < |vs| &&
      |visitados + {a.destino}| <= |vs| &&
      EstadoPrim(vs, s, mst + [a], visitados + {a.destino},
                 disponiveis + Expansao(vs, s, a.destino, visitados + {a.destino}, |Adj(vs, a.destino)|))
  {
    PrimEscolha(vs, s, mst, visitados, disponiveis, c);
    PrimAvanca(vs, s, mst, visitados, disponiveis, disponiveis[c]);
  }

  /** The loop stops when every vertex is visited, the frontier is empty, or no
      frontier edge crosses. */
  lemma PrimPara(vs: seq<Vertice>, s: nat, mst: seq<Aresta>, visitados: set<nat>, disponiveis: seq<Aresta>)
    requires EstadoPrim(vs, s, mst, visitados, disponiveis)
    requires |visitados| >= |vs| || |disponiveis| == 0 || MenorCruzando(disponiveis, visitados).None?
    ensures FimPrim(vs, s, mst)
  {
  }
}
