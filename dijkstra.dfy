/** The specification of the engine's Dijkstra run: tentative distances with an
    explicit infinity (the engine's `int.MaxValue` sentinel), the stable choice
    of the next vertex, walks that realise a distance, the relaxation
    invariant, and the bound it gives on every walk. */
module Dijkstra {
  import opened Entidades
  import opened Caminhos

  /** A tentative distance: a finite value, or the "not reached" sentinel. */
  datatype Distancia = Finita(valor: int) | Infinita

  /** `a < b`, infinity being above every finite value. */
  predicate AntesDe(a: Distancia, b: Distancia) {
    (a.Finita? && b.Infinita?) || (a.Finita? && b.Finita? && a.valor < b.valor)
  }

  /** `a <= b`. */
  predicate NaoMaior(a: Distancia, b: Distancia) {
    !AntesDe(b, a)
  }

  /** The next vertex to process among the positions below `m`: the pending
      vertex of least distance that comes first in the vertex list (a pending
      set enumerates in insertion order and the sort is stable). */
  function PrimeiroMinimo(d: seq<Distancia>, pend: set<nat>, m: nat): (r: Option<nat>)
    requires m <= |d|
    ensures r.None? <==> forall i: nat :: i < m ==> i !in pend
    ensures r.Some? ==> r.value < m && r.value in pend
    ensures r.Some? ==> forall i: nat :: i < m && i in pend ==> NaoMaior(d[r.value], d[i])
    ensures r.Some? ==> forall i: nat :: i < r.value && i in pend ==> AntesDe(d[r.value], d[i])
  {
    if m == 0 then None
    else
      var p := PrimeiroMinimo(d, pend, m - 1);
      if m - 1 in pend && (p.None? || AntesDe(d[m - 1], d[p.value])) then Some(m - 1) else p
  }

  /** Some walk from `s` to `v` weighs exactly `w`. */
  ghost predicate Realizavel(vs: seq<Vertice>, s: nat, v: nat, w: int) {
    exists es :: EhPasseio(vs, s, es) && FimPasseio(s, es) == v && PesoPasseio(es) == w
  }

  lemma RealizavelOrigem(vs: seq<Vertice>, s: nat)
    requires s < |vs|
    ensures Realizavel(vs, s, s, 0)
  {
    assert EhPasseio(vs, s, []) && FimPasseio(s, []) == s && PesoPasseio([]) == 0;
  }

  /** Extending a walk by one entry adds the entry's weight. */
  lemma RealizavelPasso(vs: seq<Vertice>, s: nat, u: nat, w: int, e: Adjacente)
    requires BemFormado(vs) && u < |vs| && e in vs[u].adjacentes
    requires Realizavel(vs, s, u, w)
    ensures Realizavel(vs, s, e.vizinho, w + e.peso)
  {
    var es :| EhPasseio(vs, s, es) && FimPasseio(s, es) == u && PesoPasseio(es) == w;
    var es' := es + [e];
    assert es'[..|es'| - 1] == es;
    assert EhPasseio(vs, s, es') && FimPasseio(s, es') == e.vizinho && PesoPasseio(es') == w + e.peso;
  }

  /** The first `m` entries of `u` have been relaxed: each neighbour has a finite
      distance no greater than `u`'s plus the entry's weight. */
  ghost predicate Relaxou(vs: seq<Vertice>, d: seq<Distancia>, u: nat, m: nat)
    requires |d| == |vs| && u < |vs| && m <= |vs[u].adjacentes|
  {
    forall k :: 0 <= k < m ==> EntradaRelaxada(vs, d, u, k)
  }

  /** Entry `k` of `u` is relaxed. */
  ghost predicate EntradaRelaxada(vs: seq<Vertice>, d: seq<Distancia>, u: nat, k: nat)
    requires |d| == |vs| && u < |vs| && k < |vs[u].adjacentes|
  {
    var e := vs[u].adjacentes[k];
    e.vizinho < |d| && d[u].Finita? && d[e.vizinho].Finita? && d[e.vizinho].valor <= d[u].valor + e.peso
  }

  /** Every entry out of a vertex with a finite distance is relaxed. */
  ghost predicate Relaxado(vs: seq<Vertice>, d: seq<Distancia>)
    requires |d| == |vs|
  {
    forall u :: 0 <= u < |vs| && d[u].Finita? ==> Relaxou(vs, d, u, |vs[u].adjacentes|)
  }

  /** Relaxation stays true while distances only go down and `u`'s stays put. */
  lemma RelaxouMonotono(vs: seq<Vertice>, d: seq<Distancia>, d': seq<Distancia>, u: nat, m: nat)
    requires |d| == |vs| && |d'| == |vs| && u < |vs| && m <= |vs[u].adjacentes|
    requires Relaxou(vs, d, u, m) && d'[u] == d[u]
    requires forall x :: 0 <= x < |vs| ==> NaoMaior(d'[x], d[x])
    ensures Relaxou(vs, d', u, m)
  {
    forall k | 0 <= k < m ensures EntradaRelaxada(vs, d', u, k) {
      assert EntradaRelaxada(vs, d, u, k);
      assert NaoMaior(d'[vs[u].adjacentes[k].vizinho], d[vs[u].adjacentes[k].vizinho]);
    }
  }

  /** Relaxation bounds every walk: a walk from `s` ends at a vertex whose
      distance is finite and no greater than the walk's weight. */
  lemma {:induction false} CotaInferior(vs: seq<Vertice>, d: seq<Distancia>, s: nat, es: seq<Adjacente>)
    requires BemFormado(vs) && |d| == |vs| && Relaxado(vs, d)
    requires s < |vs| && d[s].Finita? && d[s].valor <= 0
    requires EhPasseio(vs, s, es)
    ensures FimPasseio(s, es) < |vs| && d[FimPasseio(s, es)].Finita?
    ensures d[FimPasseio(s, es)].valor <= PesoPasseio(es)
  {
    if es != [] {
      var init := es[..|es| - 1];
      var last := es[|es| - 1];
      CotaInferior(vs, d, s, init);
      var u := FimPasseio(s, init);
      var k :| 0 <= k < |vs[u].adjacentes| && vs[u].adjacentes[k] == last;
      assert Relaxou(vs, d, u, |vs[u].adjacentes|);
      assert EntradaRelaxada(vs, d, u, k);
    }
  }

  /** Under relaxation, a distance a walk realises is the least weight of any
      walk to that vertex, and vertices without a finite distance are out of reach. */
  lemma DistanciaMinima(vs: seq<Vertice>, d: seq<Distancia>, s: nat, v: nat)
    requires BemFormado(vs) && |d| == |vs| && Relaxado(vs, d)
    requires s < |vs| && d[s].Finita? && d[s].valor <= 0 && v < |vs|
    ensures d[v].Infinita? ==> !Alcanca(vs, s, v)
    ensures d[v].Finita? ==> forall es :: EhPasseio(vs, s, es) && FimPasseio(s, es) == v ==> d[v].valor <= PesoPasseio(es)
  {
    forall es | EhPasseio(vs, s, es) && FimPasseio(s, es) == v
      ensures d[v].Finita? && d[v].valor <= PesoPasseio(es)
    {
      CotaInferior(vs, d, s, es);
    }
  }

  /** The weight of the first entry of `adj` that points to `v`. */
  function PrimeiroPeso(adj: seq<Adjacente>, v: nat): (w: int)
    requires TemArcoPara(adj, v)
    ensures exists j :: 0 <= j < |adj| && adj[j] == Adjacente(v, w) && forall i :: 0 <= i < j ==> adj[i].vizinho != v
  {
    if adj[0].vizinho == v then adj[0].peso
    else
      assert TemArcoPara(adj[1..], v) by {
        var j :| 0 <= j < |adj| && adj[j].vizinho == v;
        assert adj[1..][j - 1] == adj[j];
      }
      var w := PrimeiroPeso(adj[1..], v);
      var j :| 0 <= j < |adj[1..]| && adj[1..][j] == Adjacente(v, w) && forall i :: 0 <= i < j ==> adj[1..][i].vizinho != v;
      assert adj[j + 1] == Adjacente(v, w);
      w
  }
  // ----- what the run returns -----

  /** `w` is the least weight of a walk from `s` to `v`. */
  ghost predicate CaminhoMinimo(vs: seq<Vertice>, s: nat, v: nat, w: int) {
    Realizavel(vs, s, v, w) &&
    forall es :: EhPasseio(vs, s, es) && FimPasseio(s, es) == v ==> w <= PesoPasseio(es)
  }

  /** Some entry `u -> v` extends a shortest walk to `u` into a shortest walk to `v`. */
  ghost predicate ArestaDeCaminhoMinimo(vs: seq<Vertice>, s: nat, u: nat, v: nat) {
    u < |vs| &&
    exists k :: 0 <= k < |vs[u].adjacentes| && vs[u].adjacentes[k].vizinho == v &&
      exists du :: CaminhoMinimo(vs, s, u, du) && CaminhoMinimo(vs, s, v, du + vs[u].adjacentes[k].peso)
  }

  /** The shortest-path tree from `s`: one edge into each vertex other than `s`
      that `s` reaches and into no other vertex, each along an entry of its
      origin, weighed by the first entry to its destination and labelled
      `u->v`, and leaving `s` or the destination of another edge; with
      non-negative weights no edge enters `s`, every edge lies on a shortest
      walk and the edges point forward in an order of the vertices, so that no
      chain of them closes a cycle and each traces back to `s`. */
  ghost predicate ArvoreDeCaminhos(vs: seq<Vertice>, s: nat, arvore: seq<Aresta>) {
    (forall k :: 0 <= k < |arvore| ==>
      arvore[k].origem < |vs| && TemArcoPara(vs[arvore[k].origem].adjacentes, arvore[k].destino) &&
      arvore[k].peso == PrimeiroPeso(vs[arvore[k].origem].adjacentes, arvore[k].destino) &&
      arvore[k].nome == NomeDe(vs, arvore[k].origem) + "->" + NomeDe(vs, arvore[k].destino) &&
      Alcanca(vs, s, arvore[k].destino)) &&
    (forall i, j :: 0 <= i < j < |arvore| ==> arvore[i].destino != arvore[j].destino) &&
    (forall v: nat :: v < |vs| && v != s && Alcanca(vs, s, v) ==> exists k :: 0 <= k < |arvore| && arvore[k].destino == v) &&
    OrigensLigadas(arvore, s) &&
    (NaoNegativo(vs) ==>
      (exists fila :: Enraizada(arvore, fila)) &&
      forall k :: 0 <= k < |arvore| ==> arvore[k].destino != s && ArestaDeCaminhoMinimo(vs, s, arvore[k].origem, arvore[k].destino))
  }

  /** The position of the first occurrence of `x` in `fila`. */
  function Posicao(fila: seq<nat>, x: nat): (i: nat)
    requires x in fila
    ensures i < |fila| && fila[i] == x && forall j :: 0 <= j < i ==> fila[j] != x
  {
    if fila[0] == x then 0 else 1 + Posicao(fila[1..], x)
  }

  /** A first occurrence is the position. */
  lemma PosicaoUnica(fila: seq<nat>, x: nat, i: nat)
    requires i < |fila| && fila[i] == x && forall j :: 0 <= j < i ==> fila[j] != x
    ensures Posicao(fila, x) == i
  {
  }

  /** Appending to `fila` moves no vertex already in it, and puts a new one last. */
  lemma PosicaoAnexo(fila: seq<nat>, y: nat)
    ensures forall x :: x in fila ==> Posicao(fila + [y], x) == Posicao(fila, x)
    ensures y !in fila ==> Posicao(fila + [y], y) == |fila|
  {
    var f := fila + [y];
    assert forall j :: 0 <= j < |fila| ==> f[j] == fila[j];
    forall x | x in fila ensures Posicao(f, x) == Posicao(fila, x) {
      PosicaoUnica(f, x, Posicao(fila, x));
    }
    if y !in fila {
      PosicaoUnica(f, y, |fila|);
    }
  }

  /** Every edge leaves a vertex of `fila` for one placed later in it. */
  ghost predicate Enraizada(arvore: seq<Aresta>, fila: seq<nat>) {
    forall k :: 0 <= k < |arvore| ==>
      arvore[k].origem in fila && arvore[k].destino in fila &&
      Posicao(fila, arvore[k].origem) < Posicao(fila, arvore[k].destino)
  }

  /** `c` lists edges of `arvore`, each leaving where the previous one arrives. */
  ghost predicate Cadeia(arvore: seq<Aresta>, c: seq<nat>) {
    (forall i :: 0 <= i < |c| ==> c[i] < |arvore|) &&
    forall i, j :: 0 <= i < |c| && j == i + 1 && j < |c| ==> arvore[c[i]].destino == arvore[c[j]].origem
  }

  /** Along a chain, positions in `fila` only go up. */
  lemma {:induction false} CadeiaSobe(arvore: seq<Aresta>, fila: seq<nat>, c: seq<nat>)
    requires Enraizada(arvore, fila) && Cadeia(arvore, c) && |c| > 0
    ensures Posicao(fila, arvore[c[0]].origem) < Posicao(fila, arvore[c[|c| - 1]].destino)
  {
    if |c| > 1 {
      var c' := c[..|c| - 1];
      assert forall i :: 0 <= i < |c'| ==> c'[i] == c[i];
      assert Cadeia(arvore, c');
      CadeiaSobe(arvore, fila, c');
      assert arvore[c[|c| - 2]].destino == arvore[c[|c| - 1]].origem;
    }
  }

  /** Edges that point forward never close a cycle: a chain of them never
      ends where it began. */
  lemma EnraizadaSemCiclo(arvore: seq<Aresta>, fila: seq<nat>, c: seq<nat>)
    requires Enraizada(arvore, fila) && Cadeia(arvore, c) && |c| > 0
    ensures arvore[c[|c| - 1]].destino != arvore[c[0]].origem
  {
    CadeiaSobe(arvore, fila, c);
  }

  /** Edge `k` ends a chain of edges that starts at `s`. */
  ghost predicate ChegaDe(arvore: seq<Aresta>, s: nat, k: nat) {
    exists c :: Cadeia(arvore, c) && |c| > 0 && arvore[c[0]].origem == s && c[|c| - 1] == k
  }

  /** Edge `k` leaves `s` or the destination of another edge. */
  ghost predicate OrigemLigada(arvore: seq<Aresta>, s: nat, k: nat)
    requires k < |arvore|
  {
    arvore[k].origem == s || exists k' :: 0 <= k' < |arvore| && arvore[k'].destino == arvore[k].origem
  }

  /** Every edge leaves `s` or the destination of another edge. */
  ghost predicate OrigensLigadas(arvore: seq<Aresta>, s: nat) {
    forall k :: 0 <= k < |arvore| ==> OrigemLigada(arvore, s, k)
  }

  /** When edges point forward and each leaves `s` or the destination of
      another edge, every edge ends a chain that starts at `s`. */
  lemma {:induction false} Remonta(arvore: seq<Aresta>, fila: seq<nat>, s: nat, k: nat)
    requires Enraizada(arvore, fila) && OrigensLigadas(arvore, s) && k < |arvore|
    ensures ChegaDe(arvore, s, k)
    decreases Posicao(fila, arvore[k].origem)
  {
    assert OrigemLigada(arvore, s, k);
    if arvore[k].origem == s {
      assert Cadeia(arvore, [k]) && [k][0] == k;
      ChegaPor(arvore, s, k, [k]);
    } else {
      var k' :| 0 <= k' < |arvore| && arvore[k'].destino == arvore[k].origem;
      Remonta(arvore, fila, s, k');
      var c' :| Cadeia(arvore, c') && |c'| > 0 && arvore[c'[0]].origem == s && c'[|c'| - 1] == k';
      CadeiaAnexa(arvore, c', k);
      ChegaPor(arvore, s, k, c' + [k]);
    }
  }

  /** A chain from `s` ending in edge `k` witnesses that `k` is reached from `s`. */
  lemma ChegaPor(arvore: seq<Aresta>, s: nat, k: nat, c: seq<nat>)
    requires Cadeia(arvore, c) && |c| > 0 && arvore[c[0]].origem == s && c[|c| - 1] == k
    ensures ChegaDe(arvore, s, k)
  {
  }

  lemma CadeiaAnexa(arvore: seq<Aresta>, c: seq<nat>, k: nat)
    requires Cadeia(arvore, c) && |c| > 0 && k < |arvore| && arvore[c[|c| - 1]].destino == arvore[k].origem
    ensures Cadeia(arvore, c + [k]) && (c + [k])[0] == c[0] && (c + [k])[|c|] == k
  {
    var c' := c + [k];
    assert forall i :: 0 <= i < |c| ==> c'[i] == c[i];
  }

  /** With non-negative weights the shortest-path tree is rooted at `s`: every
      edge ends a chain of tree edges that starts at `s`, and no chain of tree
      edges closes a cycle. */
  lemma CaminhosEnraizados(vs: seq<Vertice>, s: nat, arvore: seq<Aresta>)
    requires ArvoreDeCaminhos(vs, s, arvore) && NaoNegativo(vs)
    ensures forall k :: 0 <= k < |arvore| ==> ChegaDe(arvore, s, k)
    ensures forall c :: Cadeia(arvore, c) && |c| > 0 ==> arvore[c[|c| - 1]].destino != arvore[c[0]].origem
  {
    var fila :| Enraizada(arvore, fila);
    assert OrigensLigadas(arvore, s);
    forall k | 0 <= k < |arvore| ensures ChegaDe(arvore, s, k) {
      Remonta(arvore, fila, s, k);
    }
    forall c | Cadeia(arvore, c) && |c| > 0 ensures arvore[c[|c| - 1]].destino != arvore[c[0]].origem {
      EnraizadaSemCiclo(arvore, fila, c);
    }
  }

  /** The unreachable list over the first `m` positions: the vertices left at
      infinity, `s` aside, in index order. */
  function ListaInalcancaveis(d: seq<Distancia>, s: nat, m: nat): (r: seq<nat>)
    requires m <= |d|
    ensures forall v: nat :: v in r <==> v < m && d[v].Infinita? && v != s
    ensures forall i, j :: 0 <= i < j < |r| ==> r[i] < r[j]
  {
    if m == 0 then []
    else
      var r0 := ListaInalcancaveis(d, s, m - 1);
      assert forall i :: 0 <= i < |r0| ==> r0[i] in r0;
      if d[m - 1].Infinita? && m - 1 != s then r0 + [m - 1] else r0
  }

  // ----- the run, step by step -----

  /** The keys of the predecessor map, in the order they were first inserted. */
  ghost predicate Chaves(ant: map<nat, nat>, ordem: seq<nat>) {
    (forall v :: v in ant <==> v in ordem) &&
    (forall i, j :: 0 <= i < j < |ordem| ==> ordem[i] != ordem[j])
  }

  /** Setting the predecessor of `v` keeps the insertion order of the keys. */
  lemma ChavesAnexo(ant: map<nat, nat>, ordem: seq<nat>, v: nat, u: nat)
    requires Chaves(ant, ordem)
    ensures Chaves(ant[v := u], if v in ant then ordem else ordem + [v])
  {
    if v !in ant {
      var ordem' := ordem + [v];
      forall i, k | 0 <= i < k < |ordem'| ensures ordem'[i] != ordem'[k] {
        if k == |ordem| { assert ordem'[i] == ordem[i]; }
      }
    }
  }

  /** Every finite distance is the weight of a walk from `s`. */
  ghost predicate Realizadas(vs: seq<Vertice>, s: nat, d: seq<Distancia>) {
    |d| == |vs| && forall v :: 0 <= v < |vs| && d[v].Finita? ==> Realizavel(vs, s, v, d[v].valor)
  }

  /** Every vertex other than `s` with a finite distance has a predecessor. */
  ghost predicate ComAnterior(vs: seq<Vertice>, s: nat, d: seq<Distancia>, ant: map<nat, nat>) {
    |d| == |vs| && forall v :: 0 <= v < |vs| && d[v].Finita? && v != s ==> v in ant
  }

  /** Every key and its predecessor have finite distances, and the key is
      reached by an entry of its predecessor. */
  ghost predicate Predecessores(vs: seq<Vertice>, d: seq<Distancia>, ant: map<nat, nat>) {
    |d| == |vs| &&
    forall v :: v in ant ==>
      v < |vs| && d[v].Finita? && ant[v] < |vs| && d[ant[v]].Finita? && TemArcoPara(vs[ant[v]].adjacentes, v)
  }

  /** What holds throughout, whatever the weights: finite distances are realised
      by walks and `s`'s is at most 0; every vertex with a finite distance other
      than `s` has a predecessor, along one of the predecessor's entries. */
  ghost predicate Base(vs: seq<Vertice>, s: nat, d: seq<Distancia>, ant: map<nat, nat>, ordem: seq<nat>) {
    BemFormado(vs) && s < |vs| && |d| == |vs| && d[s].Finita? && d[s].valor <= 0 &&
    Realizadas(vs, s, d) && ComAnterior(vs, s, d, ant) && Predecessores(vs, d, ant) && Chaves(ant, ordem)
  }

  /** The pending and the processed vertices split the vertex positions. */
  ghost predicate Partilha(vs: seq<Vertice>, pend: set<nat>, proc: set<nat>) {
    (forall x :: x in pend ==> x < |vs| && x !in proc) &&
    (forall x :: x in proc ==> x < |vs|) &&
    (forall x: nat :: x < |vs| ==> x in pend || x in proc)
  }

  /** Some entry `u -> v` accounts for `v`'s distance from `u`'s. */
  ghost predicate Explica(vs: seq<Vertice>, d: seq<Distancia>, u: nat, v: nat) {
    u < |vs| && u < |d| && v < |d| && d[u].Finita? && d[v].Finita? &&
    exists k :: 0 <= k < |vs[u].adjacentes| && vs[u].adjacentes[k].vizinho == v &&
      d[v].valor == d[u].valor + vs[u].adjacentes[k].peso
  }

  /** What holds when every weight is non-negative, for the processed set `p`:
      distances are non-negative, `s` has no predecessor, processed distances
      are no greater than the others, and each predecessor is processed and
      accounts for its successor's distance. */
  ghost predicate Ordenado(vs: seq<Vertice>, s: nat, d: seq<Distancia>, p: set<nat>, ant: map<nat, nat>)
    requires |d| == |vs|
  {
    (forall v :: 0 <= v < |vs| && d[v].Finita? ==> d[v].valor >= 0) && s !in ant &&
    (forall x, y {:trigger d[y], x in p} :: x in p && x < |vs| && 0 <= y < |vs| && y !in p ==> NaoMaior(d[x], d[y])) &&
    (forall v :: v in ant ==> ant[v] in p && Explica(vs, d, ant[v], v))
  }

  /** The first `m` entries of `u` lead to vertices with finite distances. */
  ghost predicate VizinhosFinitos(vs: seq<Vertice>, d: seq<Distancia>, u: nat, m: nat)
    requires u < |vs| && m <= |vs[u].adjacentes|
  {
    forall k :: 0 <= k < m ==> vs[u].adjacentes[k].vizinho < |d| && d[vs[u].adjacentes[k].vizinho].Finita?
  }

  /** The processed vertices have finite distances and finite neighbours. */
  ghost predicate ProcessadosFinitos(vs: seq<Vertice>, d: seq<Distancia>, proc: set<nat>) {
    |d| == |vs| && forall u :: u in proc ==> u < |vs| && d[u].Finita? && VizinhosFinitos(vs, d, u, |vs[u].adjacentes|)
  }

  /** Every entry of a processed vertex is relaxed. */
  ghost predicate ProcessadosRelaxados(vs: seq<Vertice>, d: seq<Distancia>, proc: set<nat>) {
    |d| == |vs| && forall u :: u in proc ==> u < |vs| && Relaxou(vs, d, u, |vs[u].adjacentes|)
  }

  /** The processed vertices, between two rounds. */
  ghost predicate Feitos(vs: seq<Vertice>, s: nat, d: seq<Distancia>, proc: set<nat>, ant: map<nat, nat>) {
    ProcessadosFinitos(vs, d, proc) &&
    (NaoNegativo(vs) ==> Ordenado(vs, s, d, proc, ant) && ProcessadosRelaxados(vs, d, proc))
  }

  /** The processed vertices and `atual`, after its first `j` entries. */
  ghost predicate Relaxando(vs: seq<Vertice>, s: nat, d: seq<Distancia>, proc: set<nat>, ant: map<nat, nat>, atual: nat, j: nat) {
    |d| == |vs| && atual < |vs| && j <= |vs[atual].adjacentes| &&
    ProcessadosFinitos(vs, d, proc) && d[atual].Finita? && VizinhosFinitos(vs, d, atual, j) &&
    (NaoNegativo(vs) ==>
      Ordenado(vs, s, d, proc + {atual}, ant) && ProcessadosRelaxados(vs, d, proc) &&
      (forall u :: u in proc ==> u < |vs| && NaoMaior(d[u], d[atual])) && Relaxou(vs, d, atual, j))
  }

  /** Between two rounds. */
  ghost predicate EstadoDijkstra(vs: seq<Vertice>, s: nat, d: seq<Distancia>, pend: set<nat>, proc: set<nat>,
                                 ant: map<nat, nat>, ordem: seq<nat>) {
    Base(vs, s, d, ant, ordem) && Partilha(vs, pend, proc) && Feitos(vs, s, d, proc, ant)
  }

  /** While the entries of `atual`, taken out of the pending set, are relaxed. */
  ghost predicate EstadoRelaxa(vs: seq<Vertice>, s: nat, d: seq<Distancia>, pend: set<nat>, proc: set<nat>,
                               ant: map<nat, nat>, ordem: seq<nat>, atual: nat, j: nat) {
    Base(vs, s, d, ant, ordem) && atual !in pend && Partilha(vs, pend + {atual}, proc) &&
    Relaxando(vs, s, d, proc, ant, atual, j)
  }

  /** The loop has stopped: every vertex with a finite distance is processed. */
  ghost predicate FimDijkstra(vs: seq<Vertice>, s: nat, d: seq<Distancia>, proc: set<nat>, ant: map<nat, nat>, ordem: seq<nat>) {
    Base(vs, s, d, ant, ordem) && Feitos(vs, s, d, proc, ant) &&
    forall v :: 0 <= v < |vs| && d[v].Finita? ==> v in proc
  }

  lemma DijkstraInicio(vs: seq<Vertice>, s: nat, d: seq<Distancia>)
    requires BemFormado(vs) && s < |vs| && |d| == |vs| && d[s] == Finita(0)
    requires forall v :: 0 <= v < |vs| && v != s ==> d[v] == Infinita
    ensures EstadoDijkstra(vs, s, d, Faixa(|vs|), {}, map[], [])
  {
    RealizavelOrigem(vs, s);
  }

  /** The pending vertex of least distance is taken out: at infinity the loop
      stops, otherwise its entries are relaxed next. */
  lemma DijkstraEscolhe(vs: seq<Vertice>, s: nat, d: seq<Distancia>, pend: set<nat>, proc: set<nat>,
                        ant: map<nat, nat>, ordem: seq<nat>)
    requires EstadoDijkstra(vs, s, d, pend, proc, ant, ordem) && |pend| > 0
    ensures var r := PrimeiroMinimo(d, pend, |vs|);
      r.Some? && |pend - {r.value}| < |pend| &&
      (d[r.value].Infinita? ==> FimDijkstra(vs, s, d, proc, ant, ordem)) &&
      (d[r.value].Finita? ==> EstadoRelaxa(vs, s, d, pend - {r.value}, proc, ant, ordem, r.value, 0))
  {
    var x :| x in pend;
    var r := PrimeiroMinimo(d, pend, |vs|);
    assert r.Some?;
    var atual := r.value;
    assert pend - {atual} + {atual} == pend;
    if d[atual].Finita? && NaoNegativo(vs) {
      var p := proc + {atual};
      forall x, y | x in p && x < |vs| && 0 <= y < |vs| && y !in p ensures NaoMaior(d[x], d[y]) {
        if x == atual { assert y in pend; }
      }
    }
  }

  /** Improving `v` to the weight of a walk keeps every finite distance realised. */
  lemma RealizadasMelhora(vs: seq<Vertice>, s: nat, d: seq<Distancia>, v: nat, w: int)
    requires Realizadas(vs, s, d) && v < |vs| && Realizavel(vs, s, v, w)
    ensures Realizadas(vs, s, d[v := Finita(w)])
  {
  }

  /** Giving `v` a finite distance and a predecessor keeps the predecessor facts. */
  lemma AnteriorMelhora(vs: seq<Vertice>, s: nat, d: seq<Distancia>, ant: map<nat, nat>, v: nat, w: int, u: nat)
    requires ComAnterior(vs, s, d, ant) && Predecessores(vs, d, ant)
    requires v < |vs| && u < |vs| && d[u].Finita? && TemArcoPara(vs[u].adjacentes, v)
    ensures ComAnterior(vs, s, d[v := Finita(w)], ant[v := u]) && Predecessores(vs, d[v := Finita(w)], ant[v := u])
  {
  }

  /** The shared facts survive an improvement along the entry `e` of `atual`
      to the distance `w`. */
  lemma BaseMelhora(vs: seq<Vertice>, s: nat, d: seq<Distancia>, ant: map<nat, nat>, ordem: seq<nat>, atual: nat,
                    e: Adjacente, w: int)
    requires Base(vs, s, d, ant, ordem) && atual < |vs| && e in vs[atual].adjacentes && d[atual].Finita?
    requires w == d[atual].valor + e.peso && e.vizinho < |d| && AntesDe(Finita(w), d[e.vizinho])
    ensures Base(vs, s, d[e.vizinho := Finita(w)], ant[e.vizinho := atual], if e.vizinho in ant then ordem else ordem + [e.vizinho])
  {
    RealizavelPasso(vs, s, atual, d[atual].valor, e);
    RealizadasMelhora(vs, s, d, e.vizinho, w);
    assert TemArcoPara(vs[atual].adjacentes, e.vizinho);
    AnteriorMelhora(vs, s, d, ant, e.vizinho, w, atual);
    ChavesAnexo(ant, ordem, e.vizinho, atual);
  }

  /** With non-negative weights, an improved neighbour is neither processed nor
      `atual`, and the ordering facts survive with `atual` as its predecessor. */
  lemma OrdenadoMelhora(vs: seq<Vertice>, s: nat, d: seq<Distancia>, proc: set<nat>, ant: map<nat, nat>, atual: nat, j: nat,
                        e: Adjacente, w: int)
    requires NaoNegativo(vs) && |d| == |vs| && atual < |vs| && j < |vs[atual].adjacentes| && d[atual].Finita?
    requires s < |vs| && d[s].Finita? && d[s].valor <= 0
    requires Ordenado(vs, s, d, proc + {atual}, ant) && forall u :: u in proc ==> u < |vs| && NaoMaior(d[u], d[atual])
    requires e == vs[atual].adjacentes[j] && w == d[atual].valor + e.peso
    requires e.vizinho < |d| && AntesDe(Finita(w), d[e.vizinho])
    ensures e.vizinho !in proc && e.vizinho != atual
    ensures Ordenado(vs, s, d[e.vizinho := Finita(w)], proc + {atual}, ant[e.vizinho := atual])
  {
    var v := e.vizinho;
    var d' := d[v := Finita(w)];
    var ant' := ant[v := atual];
    var p := proc + {atual};
    assert e in vs[atual].adjacentes;
    forall x | x in ant' ensures ant'[x] in p && Explica(vs, d', ant'[x], x) {
      if x == v {
        assert vs[atual].adjacentes[j].vizinho == v;
      } else {
        var u := ant[x];
        assert Explica(vs, d, u, x);
        var k :| 0 <= k < |vs[u].adjacentes| && vs[u].adjacentes[k].vizinho == x && d[x].valor == d[u].valor + vs[u].adjacentes[k].peso;
        assert d'[u] == d[u] && d'[x] == d[x];
      }
    }
  }

  /** No distance went up. */
  predicate Desce(d: seq<Distancia>, d': seq<Distancia>) {
    |d'| == |d| && forall x :: 0 <= x < |d| ==> NaoMaior(d'[x], d[x])
  }

  /** Finite neighbours stay finite when no distance goes up. */
  lemma FinitosDesce(vs: seq<Vertice>, d: seq<Distancia>, d': seq<Distancia>, proc: set<nat>)
    requires Desce(d, d') && ProcessadosFinitos(vs, d, proc)
    ensures ProcessadosFinitos(vs, d', proc)
  {
  }

  /** Relaxed vertices stay relaxed when no distance goes up and theirs stay put. */
  lemma RelaxadosDesce(vs: seq<Vertice>, d: seq<Distancia>, d': seq<Distancia>, proc: set<nat>)
    requires Desce(d, d') && ProcessadosRelaxados(vs, d, proc)
    requires forall u :: u in proc ==> u < |vs| && d'[u] == d[u]
    ensures ProcessadosRelaxados(vs, d', proc)
  {
    forall u | u in proc ensures Relaxou(vs, d', u, |vs[u].adjacentes|) {
      RelaxouMonotono(vs, d, d', u, |vs[u].adjacentes|);
    }
  }

  /** The state of `atual`'s scan survives an improvement along its entry `j`,
      `e`, to the distance `w`. */
  lemma RelaxandoMelhora(vs: seq<Vertice>, s: nat, d: seq<Distancia>, proc: set<nat>, ant: map<nat, nat>, atual: nat, j: nat,
                         e: Adjacente, w: int)
    requires Relaxando(vs, s, d, proc, ant, atual, j) && j < |vs[atual].adjacentes| && e == vs[atual].adjacentes[j]
    requires s < |vs| && d[s].Finita? && d[s].valor <= 0
    requires w == d[atual].valor + e.peso && e.vizinho < |d| && AntesDe(Finita(w), d[e.vizinho])
    ensures Relaxando(vs, s, d[e.vizinho := Finita(w)], proc, ant[e.vizinho := atual], atual, j + 1)
    ensures NaoNegativo(vs) ==> e.vizinho !in proc && e.vizinho != atual
  {
    var d' := d[e.vizinho := Finita(w)];
    assert Desce(d, d');
    FinitosDesce(vs, d, d', proc);
    assert VizinhosFinitos(vs, d', atual, j + 1) by {
      forall k | 0 <= k < j + 1
        ensures vs[atual].adjacentes[k].vizinho < |d'| && d'[vs[atual].adjacentes[k].vizinho].Finita?
      {
        if k < j {
          assert NaoMaior(d'[vs[atual].adjacentes[k].vizinho], d[vs[atual].adjacentes[k].vizinho]);
        }
      }
    }
    if NaoNegativo(vs) {
      OrdenadoMelhora(vs, s, d, proc, ant, atual, j, e, w);
      RelaxadosDesce(vs, d, d', proc);
      assert d'[atual] == d[atual];
      RelaxouMonotono(vs, d, d', atual, j);
      assert EntradaRelaxada(vs, d', atual, j);
      assert Relaxou(vs, d', atual, j + 1) by {
        forall k | 0 <= k < j + 1 ensures EntradaRelaxada(vs, d', atual, k) {
        }
      }
      assert forall u :: u in proc ==> u < |vs| && NaoMaior(d'[u], d'[atual]);
    }
  }

  /** An entry `e`, the `j`-th of `atual`, that improves its neighbour's distance
      to `w`: the neighbour takes the new distance and `atual` as its predecessor. */
  lemma DijkstraMelhora(vs: seq<Vertice>, s: nat, d: seq<Distancia>, pend: set<nat>, proc: set<nat>,
                        ant: map<nat, nat>, ordem: seq<nat>, atual: nat, j: nat, e: Adjacente, w: int)
    requires EstadoRelaxa(vs, s, d, pend, proc, ant, ordem, atual, j) && j < |vs[atual].adjacentes| && e == vs[atual].adjacentes[j]
    requires w == d[atual].valor + e.peso && e.vizinho < |d| && AntesDe(Finita(w), d[e.vizinho])
    ensures EstadoRelaxa(vs, s, d[e.vizinho := Finita(w)], pend, proc, ant[e.vizinho := atual],
                         if e.vizinho in ant then ordem else ordem + [e.vizinho], atual, j + 1)
    ensures NaoNegativo(vs) ==> e.vizinho !in proc && e.vizinho != atual
  {
    assert e in vs[atual].adjacentes;
    BaseMelhora(vs, s, d, ant, ordem, atual, e, w);
    RelaxandoMelhora(vs, s, d, proc, ant, atual, j, e, w);
  }

  /** An entry that does not improve its neighbour leaves everything as it is. */
  lemma DijkstraMantem(vs: seq<Vertice>, s: nat, d: seq<Distancia>, pend: set<nat>, proc: set<nat>,
                       ant: map<nat, nat>, ordem: seq<nat>, atual: nat, j: nat)
    requires EstadoRelaxa(vs, s, d, pend, proc, ant, ordem, atual, j) && j < |vs[atual].adjacentes|
    requires var e := vs[atual].adjacentes[j]; e.vizinho < |d| && !AntesDe(Finita(d[atual].valor + e.peso), d[e.vizinho])
    ensures EstadoRelaxa(vs, s, d, pend, proc, ant, ordem, atual, j + 1)
  {
    RelaxandoMantem(vs, s, d, proc, ant, atual, j);
  }

  lemma RelaxandoMantem(vs: seq<Vertice>, s: nat, d: seq<Distancia>, proc: set<nat>, ant: map<nat, nat>, atual: nat, j: nat)
    requires Relaxando(vs, s, d, proc, ant, atual, j) && j < |vs[atual].adjacentes|
    requires var e := vs[atual].adjacentes[j]; e.vizinho < |d| && !AntesDe(Finita(d[atual].valor + e.peso), d[e.vizinho])
    ensures Relaxando(vs, s, d, proc, ant, atual, j + 1)
  {
  }

  /** With every entry relaxed, `atual` joins the processed set. */
  lemma DijkstraFimRodada(vs: seq<Vertice>, s: nat, d: seq<Distancia>, pend: set<nat>, proc: set<nat>,
                          ant: map<nat, nat>, ordem: seq<nat>, atual: nat)
    requires atual < |vs| && EstadoRelaxa(vs, s, d, pend, proc, ant, ordem, atual, |vs[atual].adjacentes|)
    ensures EstadoDijkstra(vs, s, d, pend, proc + {atual}, ant, ordem)
  {
  }

  lemma DijkstraEsgotado(vs: seq<Vertice>, s: nat, d: seq<Distancia>, proc: set<nat>, ant: map<nat, nat>, ordem: seq<nat>)
    requires EstadoDijkstra(vs, s, d, {}, proc, ant, ordem)
    ensures FimDijkstra(vs, s, d, proc, ant, ordem)
  {
  }

  /** At the end a distance is finite exactly when a walk reaches the vertex. */
  lemma DijkstraAlcance(vs: seq<Vertice>, s: nat, d: seq<Distancia>, proc: set<nat>, ant: map<nat, nat>, ordem: seq<nat>)
    requires FimDijkstra(vs, s, d, proc, ant, ordem)
    ensures forall v :: 0 <= v < |vs| ==> (d[v].Finita? <==> Alcanca(vs, s, v))
  {
    var f := set v | 0 <= v < |vs| && d[v].Finita?;
    assert Fechado(vs, f) by {
      forall x, e | x in f && x < |vs| && e in vs[x].adjacentes ensures e.vizinho in f {
        var k :| 0 <= k < |vs[x].adjacentes| && vs[x].adjacentes[k] == e;
        assert VizinhosFinitos(vs, d, x, |vs[x].adjacentes|);
      }
    }
    forall v | 0 <= v < |vs| ensures d[v].Finita? <==> Alcanca(vs, s, v) {
      if d[v].Finita? {
        var es :| EhPasseio(vs, s, es) && FimPasseio(s, es) == v && PesoPasseio(es) == d[v].valor;
      }
      if Alcanca(vs, s, v) {
        FechadoContemAlcancaveis(vs, f, s, v);
      }
    }
  }

  /** What the run returns once the loop has stopped: the tree built from the
      predecessor map and the vertices left at infinity. */
  lemma DijkstraConclui(vs: seq<Vertice>, s: nat, d: seq<Distancia>, proc: set<nat>, ant: map<nat, nat>, ordem: seq<nat>,
                        fila: seq<nat>, arvore: seq<Aresta>, inalcancaveis: seq<nat>)
    requires FimDijkstra(vs, s, d, proc, ant, ordem) && MontadaDe(vs, ant, ordem, arvore)
    requires NaoNegativo(vs) ==> FilaDe(proc, fila, ant)
    requires inalcancaveis == ListaInalcancaveis(d, s, |vs|)
    ensures ArvoreDeCaminhos(vs, s, arvore)
    ensures forall v: nat :: v in inalcancaveis <==> v < |vs| && v != s && !Alcanca(vs, s, v)
    ensures forall i, j :: 0 <= i < j < |inalcancaveis| ==> inalcancaveis[i] < inalcancaveis[j]
  {
    DijkstraArvore(vs, s, d, proc, ant, ordem, fila, arvore);
    DijkstraAlcance(vs, s, d, proc, ant, ordem);
  }

  /** A finite distance under relaxation is that of a shortest walk. */
  lemma DistanciaEhMinima(vs: seq<Vertice>, d: seq<Distancia>, s: nat, v: nat)
    requires BemFormado(vs) && |d| == |vs| && Relaxado(vs, d)
    requires s < |vs| && d[s].Finita? && d[s].valor <= 0 && v < |vs| && d[v].Finita?
    requires Realizavel(vs, s, v, d[v].valor)
    ensures CaminhoMinimo(vs, s, v, d[v].valor)
  {
    DistanciaMinima(vs, d, s, v);
  }

  /** A predecessor that accounts for its successor's distance, under
      relaxation, gives an edge on a shortest walk. */
  lemma ArestaMinimaDe(vs: seq<Vertice>, s: nat, d: seq<Distancia>, u: nat, v: nat)
    requires BemFormado(vs) && |d| == |vs| && Relaxado(vs, d)
    requires s < |vs| && d[s].Finita? && d[s].valor <= 0 && Explica(vs, d, u, v)
    requires Realizavel(vs, s, u, d[u].valor) && Realizavel(vs, s, v, d[v].valor)
    ensures ArestaDeCaminhoMinimo(vs, s, u, v)
  {
    var k :| 0 <= k < |vs[u].adjacentes| && vs[u].adjacentes[k].vizinho == v && d[v].valor == d[u].valor + vs[u].adjacentes[k].peso;
    assert vs[u].adjacentes[k] in vs[u].adjacentes;
    DistanciaEhMinima(vs, d, s, u);
    DistanciaEhMinima(vs, d, s, v);
  }

  /** The processed vertices cover every finite distance, so all are relaxed. */
  lemma FimRelaxado(vs: seq<Vertice>, s: nat, d: seq<Distancia>, proc: set<nat>, ant: map<nat, nat>, ordem: seq<nat>)
    requires FimDijkstra(vs, s, d, proc, ant, ordem) && NaoNegativo(vs)
    ensures Relaxado(vs, d)
  {
  }

  /** With non-negative weights, each predecessor edge lies on a shortest walk. */
  lemma DijkstraMinimos(vs: seq<Vertice>, s: nat, d: seq<Distancia>, proc: set<nat>, ant: map<nat, nat>, ordem: seq<nat>)
    requires FimDijkstra(vs, s, d, proc, ant, ordem) && NaoNegativo(vs)
    ensures s !in ant && forall v :: v in ant ==> ArestaDeCaminhoMinimo(vs, s, ant[v], v)
  {
    FimRelaxado(vs, s, d, proc, ant, ordem);
    forall v | v in ant ensures ArestaDeCaminhoMinimo(vs, s, ant[v], v) {
      ArestaMinimaDe(vs, s, d, ant[v], v);
    }
  }

  /** The edges built from the predecessor map, key by key in insertion order:
      edge `k` leaves the predecessor of the `k`-th key for that key. */
  ghost predicate MontadaDe(vs: seq<Vertice>, ant: map<nat, nat>, ordem: seq<nat>, arvore: seq<Aresta>) {
    |arvore| == |ordem| &&
    forall k :: 0 <= k < |ordem| ==> ArestaMontada(vs, ant, ordem[k], arvore[k])
  }

  /** The edge built for key `v`: from its predecessor, weighed by the
      predecessor's first entry to `v`, labelled `u->v`. */
  ghost predicate ArestaMontada(vs: seq<Vertice>, ant: map<nat, nat>, v: nat, a: Aresta) {
    v in ant && ant[v] < |vs| && TemArcoPara(vs[ant[v]].adjacentes, v) &&
    a == Aresta(ant[v], v, PrimeiroPeso(vs[ant[v]].adjacentes, v), NomeDe(vs, ant[v]) + "->" + NomeDe(vs, v))
  }

  /** Building one more edge extends the tree by it. */
  lemma MontadaAnexa(vs: seq<Vertice>, ant: map<nat, nat>, ordem: seq<nat>, arvore: seq<Aresta>, v: nat, a: Aresta)
    requires MontadaDe(vs, ant, ordem, arvore) && ArestaMontada(vs, ant, v, a)
    ensures MontadaDe(vs, ant, ordem + [v], arvore + [a])
  {
    var o, t := ordem + [v], arvore + [a];
    forall k | 0 <= k < |o| ensures ArestaMontada(vs, ant, o[k], t[k]) {
      if k < |ordem| { assert o[k] == ordem[k] && t[k] == arvore[k]; }
    }
  }

  lemma ArvoreArestas(vs: seq<Vertice>, s: nat, ant: map<nat, nat>, ordem: seq<nat>, arvore: seq<Aresta>)
    requires MontadaDe(vs, ant, ordem, arvore)
    requires forall v :: v in ant ==> Alcanca(vs, s, v)
    ensures forall k :: 0 <= k < |arvore| ==>
      arvore[k].origem < |vs| && TemArcoPara(vs[arvore[k].origem].adjacentes, arvore[k].destino) &&
      arvore[k].peso == PrimeiroPeso(vs[arvore[k].origem].adjacentes, arvore[k].destino) &&
      arvore[k].nome == NomeDe(vs, arvore[k].origem) + "->" + NomeDe(vs, arvore[k].destino) &&
      Alcanca(vs, s, arvore[k].destino)
  {
    forall k | 0 <= k < |arvore| ensures Alcanca(vs, s, arvore[k].destino) {
      assert ordem[k] in ant;
    }
  }

  lemma ArvoreDistintas(vs: seq<Vertice>, ant: map<nat, nat>, ordem: seq<nat>, arvore: seq<Aresta>)
    requires MontadaDe(vs, ant, ordem, arvore) && Chaves(ant, ordem)
    ensures forall i, j :: 0 <= i < j < |arvore| ==> arvore[i].destino != arvore[j].destino
  {
    forall i, j | 0 <= i < j < |arvore| ensures arvore[i].destino != arvore[j].destino {
      assert arvore[i].destino == ordem[i] && arvore[j].destino == ordem[j];
    }
  }

  lemma ArvoreCobre(vs: seq<Vertice>, s: nat, ant: map<nat, nat>, ordem: seq<nat>, arvore: seq<Aresta>)
    requires MontadaDe(vs, ant, ordem, arvore) && Chaves(ant, ordem)
    requires forall v: nat :: v < |vs| && v != s && Alcanca(vs, s, v) ==> v in ant
    ensures forall v: nat :: v < |vs| && v != s && Alcanca(vs, s, v) ==> exists k :: 0 <= k < |arvore| && arvore[k].destino == v
  {
    forall v: nat | v < |vs| && v != s && Alcanca(vs, s, v) ensures exists k :: 0 <= k < |arvore| && arvore[k].destino == v {
      assert v in ordem;
      var k :| 0 <= k < |ordem| && ordem[k] == v;
      assert arvore[k].destino == v;
    }
  }

  lemma ArvoreMinima(vs: seq<Vertice>, s: nat, ant: map<nat, nat>, ordem: seq<nat>, arvore: seq<Aresta>)
    requires MontadaDe(vs, ant, ordem, arvore)
    requires s !in ant && forall v :: v in ant ==> ArestaDeCaminhoMinimo(vs, s, ant[v], v)
    ensures forall k :: 0 <= k < |arvore| ==> arvore[k].destino != s && ArestaDeCaminhoMinimo(vs, s, arvore[k].origem, arvore[k].destino)
  {
    forall k | 0 <= k < |arvore| ensures arvore[k].destino != s && ArestaDeCaminhoMinimo(vs, s, arvore[k].origem, arvore[k].destino) {
      assert ordem[k] in ant;
    }
  }

  /** The edges built from the predecessor map at the end of the run make the
      shortest-path tree. */
  lemma DijkstraArvore(vs: seq<Vertice>, s: nat, d: seq<Distancia>, proc: set<nat>, ant: map<nat, nat>, ordem: seq<nat>,
                       fila: seq<nat>, arvore: seq<Aresta>)
    requires FimDijkstra(vs, s, d, proc, ant, ordem) && MontadaDe(vs, ant, ordem, arvore)
    requires NaoNegativo(vs) ==> FilaDe(proc, fila, ant)
    ensures ArvoreDeCaminhos(vs, s, arvore)
  {
    DijkstraAlcance(vs, s, d, proc, ant, ordem);
    ArvoreArestas(vs, s, ant, ordem, arvore);
    ArvoreDistintas(vs, ant, ordem, arvore);
    ArvoreCobre(vs, s, ant, ordem, arvore);
    ArvoreOrigens(vs, s, d, ant, ordem, arvore);
    if NaoNegativo(vs) {
      DijkstraMinimos(vs, s, d, proc, ant, ordem);
      ArvoreMinima(vs, s, ant, ordem, arvore);
      ArvoreEnraizada(vs, s, d, proc, ant, ordem, fila, arvore);
    }
  }

  /** Every edge leaves `s` or the destination of another edge: a predecessor
      has a finite distance, so it is `s` or a key itself. */
  lemma ArvoreOrigens(vs: seq<Vertice>, s: nat, d: seq<Distancia>, ant: map<nat, nat>, ordem: seq<nat>, arvore: seq<Aresta>)
    requires Base(vs, s, d, ant, ordem) && MontadaDe(vs, ant, ordem, arvore)
    ensures OrigensLigadas(arvore, s)
  {
    forall k | 0 <= k < |arvore| ensures OrigemLigada(arvore, s, k) {
      assert ArestaMontada(vs, ant, ordem[k], arvore[k]);
      var u := ant[ordem[k]];
      if u != s {
        assert u in ordem;
        var k' :| 0 <= k' < |ordem| && ordem[k'] == u;
        assert ArestaMontada(vs, ant, ordem[k'], arvore[k']);
      }
    }
  }

  /** With every key processed, the edges point forward in the processing order. */
  lemma ArvoreEnraizada(vs: seq<Vertice>, s: nat, d: seq<Distancia>, proc: set<nat>, ant: map<nat, nat>, ordem: seq<nat>,
                        fila: seq<nat>, arvore: seq<Aresta>)
    requires FimDijkstra(vs, s, d, proc, ant, ordem) && MontadaDe(vs, ant, ordem, arvore) && FilaDe(proc, fila, ant)
    ensures Enraizada(arvore, fila)
  {
    forall k | 0 <= k < |arvore|
      ensures arvore[k].origem in fila && arvore[k].destino in fila &&
              Posicao(fila, arvore[k].origem) < Posicao(fila, arvore[k].destino)
    {
      var v := ordem[k];
      assert ArestaMontada(vs, ant, v, arvore[k]);
      assert v in ant && v in proc;
    }
  }

  // ----- one round of relaxation -----

  /** What relaxing entries of `atual` has done to the state it started from
      (`d0`, `ant0`, `ordem0`): no distance went up; a vertex whose distance
      changed has `atual` as its predecessor; a vertex whose distance stayed
      kept its predecessor, or its lack of one; and the key order only grew,
      by keys that are new. */
  ghost predicate EfeitoRodada(d0: seq<Distancia>, ant0: map<nat, nat>, ordem0: seq<nat>,
                               d: seq<Distancia>, ant: map<nat, nat>, ordem: seq<nat>, atual: nat) {
    |d| == |d0| &&
    (forall v :: 0 <= v < |d| ==> NaoMaior(d[v], d0[v])) &&
    (forall v :: 0 <= v < |d| && d[v] != d0[v] ==> v in ant && ant[v] == atual) &&
    (forall v :: v in ant0 ==> v in ant) &&
    (forall v :: v in ant ==> (v in ant0 && ant[v] == ant0[v]) || (v < |d| && d[v] != d0[v])) &&
    |ordem0| <= |ordem| && ordem[..|ordem0|] == ordem0 &&
    (forall i :: |ordem0| <= i < |ordem| ==> ordem[i] !in ant0)
  }

  /** Before the first entry nothing has changed. */
  lemma EfeitoInicio(d0: seq<Distancia>, ant0: map<nat, nat>, ordem0: seq<nat>, atual: nat)
    ensures EfeitoRodada(d0, ant0, ordem0, d0, ant0, ordem0, atual)
  {
    assert ordem0[..|ordem0|] == ordem0;
  }

  /** Only vertices outside `proc`, other than `atual`, changed distance. */
  ghost predicate SoPendentes(d0: seq<Distancia>, d: seq<Distancia>, proc: set<nat>, atual: nat) {
    forall v :: 0 <= v < |d| && v < |d0| && d[v] != d0[v] ==> v !in proc && v != atual
  }

  lemma SoPendentesMelhora(d0: seq<Distancia>, d: seq<Distancia>, proc: set<nat>, atual: nat, v: nat, x: Distancia)
    requires SoPendentes(d0, d, proc, atual) && v < |d| && v !in proc && v != atual
    ensures SoPendentes(d0, d[v := x], proc, atual)
  {
  }

  /** An entry that brings `v` down to `x`. */
  lemma EfeitoMelhora(d0: seq<Distancia>, ant0: map<nat, nat>, ordem0: seq<nat>,
                      d: seq<Distancia>, ant: map<nat, nat>, ordem: seq<nat>, atual: nat, v: nat, x: Distancia)
    requires EfeitoRodada(d0, ant0, ordem0, d, ant, ordem, atual) && v < |d| && AntesDe(x, d[v])
    ensures EfeitoRodada(d0, ant0, ordem0, d[v := x], ant[v := atual], if v in ant then ordem else ordem + [v], atual)
  {
    var ordem' := if v in ant then ordem else ordem + [v];
    assert ordem'[..|ordem|] == ordem;
    assert ordem'[..|ordem0|] == ordem[..|ordem0|];
  }

  /** `d` is `d0` after each entry of `atual` was relaxed from `atual`'s
      distance, which stayed where it was: each vertex is at the least of its
      old distance and of `atual`'s plus the weight of each entry to it. */
  ghost predicate MinimoDaRodada(vs: seq<Vertice>, d0: seq<Distancia>, d: seq<Distancia>, atual: nat) {
    atual < |vs| && |d| == |d0| && atual < |d| && d[atual] == d0[atual] && d[atual].Finita? &&
    (forall k :: 0 <= k < |vs[atual].adjacentes| ==>
      (vs[atual].adjacentes[k].vizinho < |d| &&
       NaoMaior(d[vs[atual].adjacentes[k].vizinho], Finita(d[atual].valor + vs[atual].adjacentes[k].peso)))) &&
    (forall v :: 0 <= v < |d| ==>
      NaoMaior(d[v], d0[v]) &&
      (d[v] == d0[v] ||
       exists k :: 0 <= k < |vs[atual].adjacentes| && vs[atual].adjacentes[k].vizinho == v &&
         d[v] == Finita(d[atual].valor + vs[atual].adjacentes[k].peso)))
  }

  /** With non-negative weights a whole round is that least. */
  lemma RodadaMinima(vs: seq<Vertice>, s: nat, pend: set<nat>, proc: set<nat>, atual: nat,
                     d0: seq<Distancia>, ant0: map<nat, nat>, ordem0: seq<nat>,
                     d: seq<Distancia>, ant: map<nat, nat>, ordem: seq<nat>)
    requires atual < |vs| && EstadoRelaxa(vs, s, d, pend, proc, ant, ordem, atual, |vs[atual].adjacentes|)
    requires EfeitoRodada(d0, ant0, ordem0, d, ant, ordem, atual) && NaoNegativo(vs) && SoPendentes(d0, d, proc, atual)
    ensures MinimoDaRodada(vs, d0, d, atual)
  {
    assert Relaxando(vs, s, d, proc, ant, atual, |vs[atual].adjacentes|);
    assert d[atual] == d0[atual];
    RelaxouTodas(vs, d, atual);
    assert Ordenado(vs, s, d, proc + {atual}, ant);
    MudouPorAtual(vs, s, d0, ant0, ordem0, d, ant, ordem, proc, atual);
  }

  lemma RelaxouTodas(vs: seq<Vertice>, d: seq<Distancia>, atual: nat)
    requires |d| == |vs| && atual < |vs| && Relaxou(vs, d, atual, |vs[atual].adjacentes|)
    ensures forall k :: 0 <= k < |vs[atual].adjacentes| ==>
      (vs[atual].adjacentes[k].vizinho < |d| && d[atual].Finita? &&
       NaoMaior(d[vs[atual].adjacentes[k].vizinho], Finita(d[atual].valor + vs[atual].adjacentes[k].peso)))
  {
    var adj := vs[atual].adjacentes;
    forall k | 0 <= k < |adj|
      ensures adj[k].vizinho < |d| && d[atual].Finita? && NaoMaior(d[adj[k].vizinho], Finita(d[atual].valor + adj[k].peso))
    {
      assert EntradaRelaxada(vs, d, atual, k);
    }
  }

  lemma MudouPorAtual(vs: seq<Vertice>, s: nat, d0: seq<Distancia>, ant0: map<nat, nat>, ordem0: seq<nat>,
                      d: seq<Distancia>, ant: map<nat, nat>, ordem: seq<nat>, proc: set<nat>, atual: nat)
    requires |d| == |vs| && atual < |vs| && d[atual].Finita?
    requires Ordenado(vs, s, d, proc + {atual}, ant) && EfeitoRodada(d0, ant0, ordem0, d, ant, ordem, atual)
    ensures forall v :: 0 <= v < |d| ==>
      (d[v] == d0[v] ||
       exists k :: 0 <= k < |vs[atual].adjacentes| && vs[atual].adjacentes[k].vizinho == v &&
         d[v] == Finita(d[atual].valor + vs[atual].adjacentes[k].peso))
  {
    var adj := vs[atual].adjacentes;
    forall v | 0 <= v < |d| && d[v] != d0[v]
      ensures exists k :: 0 <= k < |adj| && adj[k].vizinho == v && d[v] == Finita(d[atual].valor + adj[k].peso)
    {
      assert v in ant && ant[v] == atual;
      assert Explica(vs, d, atual, v);
    }
  }

  /** `fila` lists the processed vertices in the order they were processed;
      every predecessor was processed, and before its successor when that was
      processed too. */
  ghost predicate FilaDe(proc: set<nat>, fila: seq<nat>, ant: map<nat, nat>) {
    (forall x :: x in fila <==> x in proc) &&
    forall v :: v in ant ==> ant[v] in fila && (v in fila ==> Posicao(fila, ant[v]) < Posicao(fila, v))
  }

  /** A round on `atual` that gave a predecessor only to vertices not
      processed yet, and never to `atual`, keeps the processing order once
      `atual` is appended to it. */
  lemma FilaRodada(proc: set<nat>, fila: seq<nat>, d0: seq<Distancia>, ant0: map<nat, nat>, ordem0: seq<nat>,
                   d: seq<Distancia>, ant: map<nat, nat>, ordem: seq<nat>, atual: nat)
    requires FilaDe(proc, fila, ant0) && atual !in proc
    requires EfeitoRodada(d0, ant0, ordem0, d, ant, ordem, atual)
    requires SoPendentes(d0, d, proc, atual)
    ensures FilaDe(proc + {atual}, fila + [atual], ant)
  {
    var f := fila + [atual];
    assert atual !in fila;
    PosicaoAnexo(fila, atual);
    forall v | v in ant ensures ant[v] in f && (v in f ==> Posicao(f, ant[v]) < Posicao(f, v)) {
      if !(v in ant0 && ant[v] == ant0[v]) {
        assert v !in f;
      }
    }
  }
}
