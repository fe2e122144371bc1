/** The specification of Roy's algorithm as the engine runs it: strongly
    connected components through successor and predecessor sets, the edges each
    component contributes, which components are reported, and the closing
    message. */
module Componentes {
  import opened Entidades
  import opened Caminhos
  import opened Texto

  /** The strongly connected component of `v`: every vertex `v` reaches and that
      reaches `v`. */
  ghost function Componente(vs: seq<Vertice>, v: nat): set<nat> {
    set u | 0 <= u < |vs| && Alcanca(vs, v, u) && Alcanca(vs, u, v)
  }

  /** `w` is a union of whole components: it holds every vertex mutually
      reachable with one of its members. */
  ghost predicate UniaoDeComponentes(vs: seq<Vertice>, w: set<nat>) {
    forall a, b :: a in w && 0 <= b < |vs| && Alcanca(vs, a, b) && Alcanca(vs, b, a) ==> b in w
  }

  /** Every vertex of `w` with an entry pointing into `p` is itself in `p`. */
  ghost predicate FechadoAntecessores(vs: seq<Vertice>, w: set<nat>, p: set<nat>) {
    forall x, y :: x in w && y in p && x < |vs| && TemArcoPara(vs[x].adjacentes, y) ==> x in p
  }

  /** A predecessor set closed within `w` catches every vertex whose walk to it
      stays among vertices that `u` reaches and that reach `v`. */
  lemma {:induction false} AntecessoresCompletos(vs: seq<Vertice>, w: set<nat>, p: set<nat>, u: nat, v: nat, x: nat, es: seq<Adjacente>)
    requires BemFormado(vs) && FechadoAntecessores(vs, w, p)
    requires forall y :: y in p ==> Alcanca(vs, y, v)
    requires forall z :: 0 <= z < |vs| && Alcanca(vs, u, z) && Alcanca(vs, z, v) ==> z in w
    requires Alcanca(vs, u, x) && EhPasseio(vs, x, es) && FimPasseio(x, es) in p
    ensures x in p
    decreases |es|
  {
    if es != [] {
      var init, last := es[..|es| - 1], es[|es| - 1];
      var m := FimPasseio(x, init);
      assert EhPasseio(vs, x, init) && m < |vs| && last in vs[m].adjacentes;
      assert Alcanca(vs, u, m) by {
        assert Alcanca(vs, x, m);
        AlcancaTransitivo(vs, u, x, m);
      }
      assert Alcanca(vs, m, v) by {
        var y := last.vizinho;
        assert y in p;
        AlcancaReflexivo(vs, m);
        AlcancaPasso(vs, m, m, last);
        AlcancaTransitivo(vs, m, y, v);
      }
      assert TemArcoPara(vs[m].adjacentes, last.vizinho) by {
        var j :| 0 <= j < |vs[m].adjacentes| && vs[m].adjacentes[j] == last;
      }
      assert m in p;
      AntecessoresCompletos(vs, w, p, u, v, x, init);
    }
  }

  /** The entry `vc -> viz` becomes a component edge unless the graph is
      undirected and `vc`'s name comes after `viz`'s. */
  predicate Mantida(vs: seq<Vertice>, vc: nat, viz: nat, dirigido: bool) {
    dirigido || !Menor(NomeDe(vs, viz), NomeDe(vs, vc))
  }

  function RotuloRoy(vs: seq<Vertice>, origem: nat, destino: nat, dirigido: bool): string {
    NomeDe(vs, origem) + (if dirigido then "->" else "-") + NomeDe(vs, destino)
  }

  /** The edges the first `m` entries of `vc` contribute to the component `cl`. */
  function ArestasDe(vs: seq<Vertice>, vc: nat, cl: seq<nat>, dirigido: bool, m: nat): seq<Aresta>
    requires m <= |Adj(vs, vc)|
  {
    if m == 0 then []
    else
      var e := Adj(vs, vc)[m - 1];
      ArestasDe(vs, vc, cl, dirigido, m - 1) +
        (if e.vizinho in cl && Mantida(vs, vc, e.vizinho, dirigido)
         then [Aresta(vc, e.vizinho, e.peso, RotuloRoy(vs, vc, e.vizinho, dirigido))] else [])
  }

  /** The edges of the component `cl` contributed by its first `k` vertices. */
  function ArestasComponente(vs: seq<Vertice>, cl: seq<nat>, dirigido: bool, k: nat): seq<Aresta>
    requires k <= |cl|
  {
    if k == 0 then [] else ArestasComponente(vs, cl, dirigido, k - 1) + ArestasDe(vs, cl[k - 1], cl, dirigido, |Adj(vs, cl[k - 1])|)
  }

  /** An edge belongs to the component's list exactly when it stands for an entry
      between two of its vertices that passes the duplicate filter. */
  ghost predicate ArestaInterna(vs: seq<Vertice>, cl: seq<nat>, dirigido: bool, a: Aresta) {
    a.origem in cl && a.destino in cl && Adjacente(a.destino, a.peso) in Adj(vs, a.origem) &&
    Mantida(vs, a.origem, a.destino, dirigido) && a.nome == RotuloRoy(vs, a.origem, a.destino, dirigido)
  }

  lemma {:induction false} ArestasDeMembro(vs: seq<Vertice>, vc: nat, cl: seq<nat>, dirigido: bool, m: nat, a: Aresta)
    requires m <= |Adj(vs, vc)|
    ensures a in ArestasDe(vs, vc, cl, dirigido, m) <==>
      a.origem == vc && a.destino in cl && EntradaEntre(Adj(vs, vc), Adjacente(a.destino, a.peso), m) &&
      Mantida(vs, vc, a.destino, dirigido) && a.nome == RotuloRoy(vs, vc, a.destino, dirigido)
  {
    if m > 0 {
      var adj := Adj(vs, vc);
      var e, x := adj[m - 1], Adjacente(a.destino, a.peso);
      ArestasDeMembro(vs, vc, cl, dirigido, m - 1, a);
      assert EntradaEntre(adj, x, m) <==> EntradaEntre(adj, x, m - 1) || x == e;
      var novo := if e.vizinho in cl && Mantida(vs, vc, e.vizinho, dirigido)
                  then [Aresta(vc, e.vizinho, e.peso, RotuloRoy(vs, vc, e.vizinho, dirigido))] else [];
      assert ArestasDe(vs, vc, cl, dirigido, m) == ArestasDe(vs, vc, cl, dirigido, m - 1) + novo;
      assert a in ArestasDe(vs, vc, cl, dirigido, m) <==> a in ArestasDe(vs, vc, cl, dirigido, m - 1) || a in novo;
    }
  }

  /** One of the first `k` vertices of `cl` is `x`. */
  ghost predicate VerticeEntre(cl: seq<nat>, x: nat, k: nat) {
    exists i :: 0 <= i < k && i < |cl| && cl[i] == x
  }

  lemma {:induction false} ArestasComponenteMembro(vs: seq<Vertice>, cl: seq<nat>, dirigido: bool, k: nat, a: Aresta)
    requires k <= |cl|
    ensures a in ArestasComponente(vs, cl, dirigido, k) <==> VerticeEntre(cl, a.origem, k) && ArestaInterna(vs, cl, dirigido, a)
  {
    if k > 0 {
      ArestasComponenteMembro(vs, cl, dirigido, k - 1, a);
      var vc := cl[k - 1];
      var adj := Adj(vs, vc);
      var x := Adjacente(a.destino, a.peso);
      ArestasDeMembro(vs, vc, cl, dirigido, |adj|, a);
      assert EntradaEntre(adj, x, |adj|) <==> x in adj;
      assert VerticeEntre(cl, a.origem, k) <==> VerticeEntre(cl, a.origem, k - 1) || a.origem == vc;
      var antes, novas := ArestasComponente(vs, cl, dirigido, k - 1), ArestasDe(vs, vc, cl, dirigido, |adj|);
      assert ArestasComponente(vs, cl, dirigido, k) == antes + novas;
      assert a in antes + novas <==> a in antes || a in novas;
      var daqui := a.origem == vc && a.destino in cl && x in adj && Mantida(vs, vc, a.destino, dirigido) &&
                   a.nome == RotuloRoy(vs, vc, a.destino, dirigido);
      assert a in novas <==> daqui;
      assert vc in cl;
      assert daqui <==> a.origem == vc && ArestaInterna(vs, cl, dirigido, a);
      assert a in ArestasComponente(vs, cl, dirigido, k) <==>
        (VerticeEntre(cl, a.origem, k - 1) || a.origem == vc) && ArestaInterna(vs, cl, dirigido, a);
    }
  }

  /** The edges of a component, in the order the engine lists them. */
  function ArestasDaComponente(vs: seq<Vertice>, cl: seq<nat>, dirigido: bool): (r: seq<Aresta>)
    ensures forall a :: a in r <==> ArestaInterna(vs, cl, dirigido, a)
  {
    var r := ArestasComponente(vs, cl, dirigido, |cl|);
    forall a ensures a in r <==> ArestaInterna(vs, cl, dirigido, a) {
      ArestasComponenteMembro(vs, cl, dirigido, |cl|, a);
      if a.origem in cl {
        var i :| 0 <= i < |cl| && cl[i] == a.origem;
        assert VerticeEntre(cl, a.origem, |cl|);
      }
    }
    r
  }

  /** A component is reported when it has more than one vertex or an edge. */
  predicate Registrada(vs: seq<Vertice>, cl: seq<nat>, dirigido: bool) {
    |cl| > 1 || |ArestasDaComponente(vs, cl, dirigido)| > 0
  }

  /** The edge lists of the reported components, in discovery order. */
  function Registradas(vs: seq<Vertice>, listas: seq<seq<nat>>, dirigido: bool): (r: seq<seq<Aresta>>)
    ensures |r| <= |listas|
  {
    if listas == [] then []
    else
      Registradas(vs, listas[..|listas| - 1], dirigido) +
        (var cl := listas[|listas| - 1];
         if Registrada(vs, cl, dirigido) then [ArestasDaComponente(vs, cl, dirigido)] else [])
  }

  const ConexoDirigido := "Grafo Fortemente Conexo"
  const ConexoNaoDirigido := "Grafo Conexo"
  const SoIsolados := "Grafo contém apenas vértices isolados (sem arestas)"

  /** Some reported component holds all `n` vertices. */
  predicate Cobre(vs: seq<Vertice>, listas: seq<seq<nat>>, dirigido: bool) {
    exists j :: 0 <= j < |listas| && Registrada(vs, listas[j], dirigido) && |listas[j]| == |vs|
  }

  /** The message for a graph whose vertices all reach each other. */
  function MensagemConexo(dirigido: bool): string {
    if dirigido then ConexoDirigido else ConexoNaoDirigido
  }

  /** The message the run leaves behind. */
  function MensagemRoy(vs: seq<Vertice>, listas: seq<seq<nat>>, dirigido: bool): string {
    if Cobre(vs, listas, dirigido) then MensagemConexo(dirigido)
    else if Registradas(vs, listas, dirigido) == [] && |vs| > 0 then SoIsolados
    else ""
  }

  /** The elements of a list, as a set. */
  function Conjunto(cl: seq<nat>): (r: set<nat>)
    ensures forall x :: x in r <==> x in cl
  {
    if cl == [] then {} else Conjunto(cl[..|cl| - 1]) + {cl[|cl| - 1]}
  }

  /** `x` is in one of the lists. */
  predicate Listado(listas: seq<seq<nat>>, x: nat) {
    exists j :: 0 <= j < |listas| && x in listas[j]
  }

  /** `listas` lists the strongly connected components of the graph: each list is
      duplicate-free and holds exactly the component of its first vertex, no
      vertex is in two lists, and every vertex is in one. */
  ghost predicate Particao(vs: seq<Vertice>, listas: seq<seq<nat>>) {
    ListasDeComponentes(vs, listas) && (forall x :: 0 <= x < |vs| ==> Listado(listas, x))
  }

  /** Each list is duplicate-free and holds exactly the component of its first
      vertex, and no vertex is in two lists. */
  ghost predicate ListasDeComponentes(vs: seq<Vertice>, listas: seq<seq<nat>>) {
    (forall j :: 0 <= j < |listas| ==> |listas[j]| > 0 && Conjunto(listas[j]) == Componente(vs, listas[j][0])) &&
    (forall j, a, b :: 0 <= j < |listas| && 0 <= a < b < |listas[j]| ==> listas[j][a] != listas[j][b]) &&
    (forall i, j, x :: 0 <= i < j < |listas| && x in listas[i] ==> x !in listas[j])
  }

  /** Each list begins with its least vertex, and the lists come in increasing
      order of their least vertices. */
  predicate EmOrdem(listas: seq<seq<nat>>)
    requires forall j :: 0 <= j < |listas| ==> |listas[j]| > 0
  {
    (forall j, x :: 0 <= j < |listas| && x in listas[j] ==> listas[j][0] <= x) &&
    (forall i, j :: 0 <= i < j < |listas| ==> listas[i][0] < listas[j][0])
  }

  /** A one-vertex component is reported exactly when its vertex has a self-loop. */
  lemma RegistradaSingular(vs: seq<Vertice>, v: nat, dirigido: bool)
    ensures Registrada(vs, [v], dirigido) <==> TemArcoPara(Adj(vs, v), v)
  {
    var r := ArestasDaComponente(vs, [v], dirigido);
    MenorTotal(NomeDe(vs, v), NomeDe(vs, v));
    if TemArcoPara(Adj(vs, v), v) {
      var j :| 0 <= j < |Adj(vs, v)| && Adj(vs, v)[j].vizinho == v;
      var e := Adj(vs, v)[j];
      assert ArestaInterna(vs, [v], dirigido, Aresta(v, v, e.peso, RotuloRoy(vs, v, v, dirigido)));
    }
    if |r| > 0 {
      assert r[0] in r;
      var e :| e in Adj(vs, v) && e == Adjacente(r[0].destino, r[0].peso);
    }
  }

  lemma {:induction false} RegistradasVazia(vs: seq<Vertice>, listas: seq<seq<nat>>, dirigido: bool)
    ensures Registradas(vs, listas, dirigido) == [] <==> forall j :: 0 <= j < |listas| ==> !Registrada(vs, listas[j], dirigido)
  {
    if listas != [] {
      var init := listas[..|listas| - 1];
      RegistradasVazia(vs, init, dirigido);
      forall j | 0 <= j < |init| ensures init[j] == listas[j] { }
    }
  }

  lemma ComponenteContem(vs: seq<Vertice>, v: nat)
    requires v < |vs|
    ensures v in Componente(vs, v)
  {
    AlcancaReflexivo(vs, v);
  }

  /** A duplicate-free list has as many elements as its set. */
  lemma {:induction false} TamanhoSemRepeticao(cl: seq<nat>)
    requires forall a, b :: 0 <= a < b < |cl| ==> cl[a] != cl[b]
    ensures |Conjunto(cl)| == |cl|
  {
    if cl != [] {
      var init := cl[..|cl| - 1];
      var last := cl[|cl| - 1];
      forall a, b | 0 <= a < b < |init| ensures init[a] != init[b] {
        assert init[a] == cl[a] && init[b] == cl[b];
      }
      TamanhoSemRepeticao(init);
      forall i | 0 <= i < |init| ensures init[i] != last {
        assert init[i] == cl[i];
      }
      assert last !in Conjunto(init);
    }
  }

  /** A duplicate-free list of positions below `n` has length `n` exactly when
      it holds them all. */
  lemma ListaCheia(cl: seq<nat>, n: nat)
    requires forall a, b :: 0 <= a < b < |cl| ==> cl[a] != cl[b]
    requires forall x :: x in cl ==> x < n
    ensures |cl| == n <==> Conjunto(cl) == Faixa(n)
  {
    var s := Conjunto(cl);
    assert s <= Faixa(n);
    TamanhoSemRepeticao(cl);
    CardinalSubconjunto(s, Faixa(n));
  }

  /** What a partition says about one of its lists. */
  lemma ParticaoLista(vs: seq<Vertice>, listas: seq<seq<nat>>, j: nat)
    requires Particao(vs, listas) && j < |listas|
    ensures |listas[j]| > 0 && Conjunto(listas[j]) == Componente(vs, listas[j][0])
    ensures forall a, b :: 0 <= a < b < |listas[j]| ==> listas[j][a] != listas[j][b]
    ensures forall x :: x in listas[j] ==> x < |vs|
  {
    forall x | x in listas[j] ensures x < |vs| {
      assert x in Conjunto(listas[j]);
    }
  }

  /** A component list of all `n` vertices that is reported means a graph whose
      vertices all reach each other, with a self-loop when it has one vertex. */
  lemma CobreIda(vs: seq<Vertice>, cl: seq<nat>, dirigido: bool)
    requires |cl| == |vs| > 0 && Conjunto(cl) == Componente(vs, cl[0]) && Registrada(vs, cl, dirigido)
    requires forall a, b :: 0 <= a < b < |cl| ==> cl[a] != cl[b]
    requires forall x :: x in cl ==> x < |vs|
    ensures forall u, w :: 0 <= u < |vs| && 0 <= w < |vs| ==> Alcanca(vs, u, w)
    ensures |vs| > 1 || TemArcoPara(Adj(vs, 0), 0)
  {
    var n := |vs|;
    var c := cl[0];
    assert c in cl;
    ListaCheia(cl, n);
    assert Componente(vs, c) == Faixa(n);
    ComponenteTotal(vs, c);
    if n == 1 {
      assert cl == [c];
      assert c in Faixa(1);
      RegistradaSingular(vs, c, dirigido);
    }
  }

  /** A component holding every vertex makes every vertex reach every other. */
  lemma ComponenteTotal(vs: seq<Vertice>, c: nat)
    requires Componente(vs, c) == Faixa(|vs|)
    ensures forall u, w :: 0 <= u < |vs| && 0 <= w < |vs| ==> Alcanca(vs, u, w)
  {
    forall u, w | 0 <= u < |vs| && 0 <= w < |vs| ensures Alcanca(vs, u, w) {
      assert u in Faixa(|vs|) && w in Faixa(|vs|);
      AlcancaTransitivo(vs, u, c, w);
    }
  }

  /** In a graph whose vertices all reach each other, the component list holding
      vertex 0 holds all `n` vertices and is reported (for one vertex, given its
      self-loop). */
  lemma CobreVolta(vs: seq<Vertice>, cl: seq<nat>, dirigido: bool)
    requires |cl| > 0 && Conjunto(cl) == Componente(vs, cl[0]) && 0 in cl
    requires forall a, b :: 0 <= a < b < |cl| ==> cl[a] != cl[b]
    requires forall x :: x in cl ==> x < |vs|
    requires forall u, w :: 0 <= u < |vs| && 0 <= w < |vs| ==> Alcanca(vs, u, w)
    requires |vs| > 1 || TemArcoPara(Adj(vs, 0), 0)
    ensures |cl| == |vs| && Registrada(vs, cl, dirigido)
  {
    var n := |vs|;
    assert cl[0] in cl && cl[0] < n;
    forall x ensures x in Componente(vs, cl[0]) <==> x in Faixa(n) {
      if x in Faixa(n) {
        assert Alcanca(vs, cl[0], x) && Alcanca(vs, x, cl[0]);
      }
    }
    ListaCheia(cl, n);
    if n == 1 {
      assert cl[0] in Faixa(1);
      assert cl == [0];
      RegistradaSingular(vs, 0, dirigido);
    }
  }

  /** The run reports a component holding every vertex exactly when the graph is
      non-empty, every vertex reaches every other, and a graph of one vertex has a
      self-loop. */
  lemma MensagemConexa(vs: seq<Vertice>, listas: seq<seq<nat>>, dirigido: bool)
    requires Particao(vs, listas)
    ensures Cobre(vs, listas, dirigido) <==>
      |vs| > 0 && (forall u, w :: 0 <= u < |vs| && 0 <= w < |vs| ==> Alcanca(vs, u, w)) &&
      (|vs| > 1 || TemArcoPara(Adj(vs, 0), 0))
  {
    if Cobre(vs, listas, dirigido) {
      var j :| 0 <= j < |listas| && Registrada(vs, listas[j], dirigido) && |listas[j]| == |vs|;
      ParticaoLista(vs, listas, j);
      CobreIda(vs, listas[j], dirigido);
    }
    if |vs| > 0 && (forall u, w :: 0 <= u < |vs| && 0 <= w < |vs| ==> Alcanca(vs, u, w)) &&
      (|vs| > 1 || TemArcoPara(Adj(vs, 0), 0))
    {
      assert Listado(listas, 0);
      var j :| 0 <= j < |listas| && 0 in listas[j];
      ParticaoLista(vs, listas, j);
      CobreVolta(vs, listas[j], dirigido);
    }
  }

  /** A component list is left unreported exactly when it is a single vertex,
      alone in its component and without a self-loop. */
  lemma NaoRegistrada(vs: seq<Vertice>, cl: seq<nat>, dirigido: bool)
    requires |cl| > 0 && Conjunto(cl) == Componente(vs, cl[0])
    requires forall a, b :: 0 <= a < b < |cl| ==> cl[a] != cl[b]
    ensures !Registrada(vs, cl, dirigido) <==>
      cl == [cl[0]] && Componente(vs, cl[0]) == {cl[0]} && !TemArcoPara(Adj(vs, cl[0]), cl[0])
  {
    var c := cl[0];
    RegistradaSingular(vs, c, dirigido);
    if |cl| > 1 {
      assert cl[1] in cl && cl[1] != c;
      assert cl[1] in Componente(vs, c);
    } else {
      assert cl == [c];
    }
  }

  /** No component is reported exactly when every vertex is a component on its
      own and has no self-loop. */
  lemma MensagemIsolados(vs: seq<Vertice>, listas: seq<seq<nat>>, dirigido: bool)
    requires Particao(vs, listas)
    ensures Registradas(vs, listas, dirigido) == [] <==>
      forall v :: 0 <= v < |vs| ==> Componente(vs, v) == {v} && !TemArcoPara(Adj(vs, v), v)
  {
    RegistradasVazia(vs, listas, dirigido);
    if forall j :: 0 <= j < |listas| ==> !Registrada(vs, listas[j], dirigido) {
      IsoladosIda(vs, listas, dirigido);
    }
    if forall v :: 0 <= v < |vs| ==> Componente(vs, v) == {v} && !TemArcoPara(Adj(vs, v), v) {
      IsoladosVolta(vs, listas, dirigido);
    }
  }

  lemma IsoladosIda(vs: seq<Vertice>, listas: seq<seq<nat>>, dirigido: bool)
    requires Particao(vs, listas)
    requires forall j :: 0 <= j < |listas| ==> !Registrada(vs, listas[j], dirigido)
    ensures forall v :: 0 <= v < |vs| ==> Componente(vs, v) == {v} && !TemArcoPara(Adj(vs, v), v)
  {
    forall v | 0 <= v < |vs| ensures Componente(vs, v) == {v} && !TemArcoPara(Adj(vs, v), v) {
      assert Listado(listas, v);
      var j :| 0 <= j < |listas| && v in listas[j];
      ParticaoLista(vs, listas, j);
      NaoRegistrada(vs, listas[j], dirigido);
      assert !Registrada(vs, listas[j], dirigido);
      assert listas[j] == [listas[j][0]];
    }
  }

  lemma IsoladosVolta(vs: seq<Vertice>, listas: seq<seq<nat>>, dirigido: bool)
    requires Particao(vs, listas)
    requires forall v :: 0 <= v < |vs| ==> Componente(vs, v) == {v} && !TemArcoPara(Adj(vs, v), v)
    ensures forall j :: 0 <= j < |listas| ==> !Registrada(vs, listas[j], dirigido)
  {
    forall j | 0 <= j < |listas| ensures !Registrada(vs, listas[j], dirigido) {
      ParticaoLista(vs, listas, j);
      var cl := listas[j];
      assert cl[0] in cl;
      NaoRegistrada(vs, cl, dirigido);
    }
  }

  // ----- the run -----

  /** No element occurs twice. */
  predicate SemRepeticao(s: seq<nat>) {
    forall a, b :: 0 <= a < b < |s| ==> s[a] != s[b]
  }

  /** The elements strictly increase. */
  predicate Crescente(s: seq<nat>) {
    forall a, b :: 0 <= a < b < |s| ==> s[a] < s[b]
  }

  /** The positions `0 .. n-1` in order: the copy of the vertex list the run
      starts from. */
  function Sequencia(n: nat): (r: seq<nat>)
    ensures |r| == n && forall i :: 0 <= i < n ==> r[i] == i
  {
    if n == 0 then [] else Sequencia(n - 1) + [n - 1]
  }

  /** Set intersection on a list: the elements of `s` that are in `p`, in the order of `s`. */
  function Intersecta(s: seq<nat>, p: set<nat>): (r: seq<nat>)
    ensures forall x :: x in r <==> x in s && x in p
  {
    if s == [] then []
    else
      var init, last := s[..|s| - 1], s[|s| - 1];
      assert forall x :: x in s <==> x in init || x == last;
      Intersecta(init, p) + (if last in p then [last] else [])
  }

  /** Set difference on a list: the elements of `s` that are not in `cl`, in the order of `s`. */
  function Exceto(s: seq<nat>, cl: seq<nat>): (r: seq<nat>)
    ensures forall x :: x in r <==> x in s && x !in cl
  {
    if s == [] then []
    else
      var init, last := s[..|s| - 1], s[|s| - 1];
      assert forall x :: x in s <==> x in init || x == last;
      Exceto(init, cl) + (if last in cl then [] else [last])
  }

  lemma {:induction false} IntersectaSemRepeticao(s: seq<nat>, p: set<nat>)
    requires SemRepeticao(s)
    ensures SemRepeticao(Intersecta(s, p))
  {
    if s != [] {
      var init, last := s[..|s| - 1], s[|s| - 1];
      assert SemRepeticao(init) by {
        forall a, b | 0 <= a < b < |init| ensures init[a] != init[b] {
          assert init[a] == s[a] && init[b] == s[b];
        }
      }
      IntersectaSemRepeticao(init, p);
      assert last !in init by {
        forall k | 0 <= k < |init| ensures init[k] != last {
          assert init[k] == s[k];
        }
      }
    }
  }

  /** When the first element of `s` is in `p`, it comes first in the intersection. */
  lemma {:induction false} IntersectaPrimeiro(s: seq<nat>, p: set<nat>)
    requires |s| > 0 && s[0] in p
    ensures |Intersecta(s, p)| > 0 && Intersecta(s, p)[0] == s[0]
  {
    if |s| > 1 {
      var init := s[..|s| - 1];
      assert init[0] == s[0];
      IntersectaPrimeiro(init, p);
    }
  }

  lemma {:induction false} ExcetoCrescente(s: seq<nat>, cl: seq<nat>)
    requires Crescente(s)
    ensures Crescente(Exceto(s, cl))
  {
    if s != [] {
      var init, last := s[..|s| - 1], s[|s| - 1];
      assert Crescente(init) by {
        forall a, b | 0 <= a < b < |init| ensures init[a] < init[b] {
          assert init[a] == s[a] && init[b] == s[b];
        }
      }
      ExcetoCrescente(init, cl);
      var r0 := Exceto(init, cl);
      forall a | 0 <= a < |r0| ensures r0[a] < last {
        assert r0[a] in r0;
        var k :| 0 <= k < |init| && init[k] == r0[a];
        assert s[k] == init[k];
      }
    }
  }

  /** Removing a list that holds the first element makes the list shorter. */
  lemma {:induction false} ExcetoEncurta(s: seq<nat>, cl: seq<nat>)
    requires |s| > 0 && s[0] in cl
    ensures |Exceto(s, cl)| < |s|
  {
    if |s| > 1 {
      var init := s[..|s| - 1];
      assert init[0] == s[0];
      ExcetoEncurta(init, cl);
    }
  }

  // The successor search.

  /** The successor search so far: `suc` lists the visited set without
      repetition, in visiting order, and every visited vertex is reachable from
      the root. */
  ghost predicate SucessoresValidos(vs: seq<Vertice>, raiz: nat, visitados: set<nat>, suc: seq<nat>) {
    (forall x :: x in suc <==> x in visitados) && SemRepeticao(suc) &&
    (forall x :: x in visitados ==> x < |vs| && Alcanca(vs, raiz, x))
  }

  /** What a call `EncontrarSucessores(vp)` that began with `visitados0` and
      `suc0` promises on return: `suc0` is extended, `vp` is visited (and listed
      next when it was new), and every vertex visited by the call is finished. */
  ghost predicate ChamadaSucessores(vs: seq<Vertice>, raiz: nat, visitados: set<nat>, suc: seq<nat>,
                                    visitados0: set<nat>, suc0: seq<nat>, vp: nat) {
    SucessoresValidos(vs, raiz, visitados, suc) && visitados0 + {vp} <= visitados && suc0 <= suc &&
    Terminados(vs, visitados - visitados0, visitados) &&
    (vp !in visitados0 ==> |suc0| < |suc| && suc[|suc0|] == vp)
  }

  /** While the call on `v` scans its entries, after the first `j` of them. */
  ghost predicate EstadoSucessores(vs: seq<Vertice>, raiz: nat, visitados: set<nat>, suc: seq<nat>,
                                   visitados0: set<nat>, suc0: seq<nat>, v: nat, j: nat) {
    v < |vs| && j <= |vs[v].adjacentes| &&
    SucessoresValidos(vs, raiz, visitados, suc) && visitados0 + {v} <= visitados && v !in visitados0 &&
    suc0 + [v] <= suc && Terminados(vs, visitados - visitados0 - {v}, visitados) &&
    (forall i :: 0 <= i < j ==> vs[v].adjacentes[i].vizinho in visitados)
  }

  lemma SucessoresInicio(vs: seq<Vertice>, raiz: nat, visitados0: set<nat>, suc0: seq<nat>, v: nat)
    requires v < |vs| && Alcanca(vs, raiz, v) && v !in visitados0
    requires SucessoresValidos(vs, raiz, visitados0, suc0)
    ensures EstadoSucessores(vs, raiz, visitados0 + {v}, suc0 + [v], visitados0, suc0, v, 0)
  {
    var suc := suc0 + [v];
    forall a, b | 0 <= a < b < |suc| ensures suc[a] != suc[b] {
      if b == |suc0| { assert suc[a] == suc0[a] && suc0[a] in suc0; }
      else { assert suc[a] == suc0[a] && suc[b] == suc0[b]; }
    }
  }

  /** Before the recursive call on an unvisited neighbour: it is reachable from
      the root, and the visited set has grown since the call began. */
  lemma SucessoresDesce(vs: seq<Vertice>, raiz: nat, visitados: set<nat>, suc: seq<nat>,
                        visitados0: set<nat>, suc0: seq<nat>, v: nat, j: nat)
    requires BemFormado(vs) && EstadoSucessores(vs, raiz, visitados, suc, visitados0, suc0, v, j)
    requires j < |vs[v].adjacentes| && vs[v].adjacentes[j].vizinho !in visitados
    ensures vs[v].adjacentes[j].vizinho < |vs| && Alcanca(vs, raiz, vs[v].adjacentes[j].vizinho)
    ensures |visitados0| < |visitados| <= |vs|
  {
    assert vs[v].adjacentes[j] in vs[v].adjacentes;
    AlcancaPasso(vs, raiz, v, vs[v].adjacentes[j]);
    CardinalFaixa(visitados, |vs|);
    CardinalSubconjunto(visitados0, visitados);
  }

  /** After the recursive call returns, the scan moves past the entry. */
  lemma SucessoresSobe(vs: seq<Vertice>, raiz: nat, visitados: set<nat>, suc: seq<nat>,
                       visitados0: set<nat>, suc0: seq<nat>, v: nat, j: nat,
                       visitados': set<nat>, suc': seq<nat>)
    requires EstadoSucessores(vs, raiz, visitados, suc, visitados0, suc0, v, j)
    requires j < |vs[v].adjacentes|
    requires ChamadaSucessores(vs, raiz, visitados', suc', visitados, suc, vs[v].adjacentes[j].vizinho)
    ensures EstadoSucessores(vs, raiz, visitados', suc', visitados0, suc0, v, j + 1)
  {
    TerminadosUniao(vs, visitados - visitados0 - {v}, visitados, visitados' - visitados, visitados');
    assert visitados' - visitados0 - {v} == (visitados - visitados0 - {v}) + (visitados' - visitados);
  }

  /** An entry to a visited vertex is passed over. */
  lemma SucessoresPula(vs: seq<Vertice>, raiz: nat, visitados: set<nat>, suc: seq<nat>,
                       visitados0: set<nat>, suc0: seq<nat>, v: nat, j: nat)
    requires EstadoSucessores(vs, raiz, visitados, suc, visitados0, suc0, v, j)
    requires j < |vs[v].adjacentes| && vs[v].adjacentes[j].vizinho in visitados
    ensures EstadoSucessores(vs, raiz, visitados, suc, visitados0, suc0, v, j + 1)
  {
  }

  /** Once every entry is scanned, `v` is finished too. */
  lemma SucessoresFim(vs: seq<Vertice>, raiz: nat, visitados: set<nat>, suc: seq<nat>,
                      visitados0: set<nat>, suc0: seq<nat>, v: nat)
    requires EstadoSucessores(vs, raiz, visitados, suc, visitados0, suc0, v, |Adj(vs, v)|)
    ensures ChamadaSucessores(vs, raiz, visitados, suc, visitados0, suc0, v)
  {
    TerminadosAmplia(vs, visitados - visitados0 - {v}, visitados, visitados, v);
    assert visitados - visitados0 == (visitados - visitados0 - {v}) + {v};
    assert (suc0 + [v])[|suc0|] == v;
  }

  /** The call on an already visited vertex changes nothing. */
  lemma SucessoresVisitado(vs: seq<Vertice>, raiz: nat, visitados0: set<nat>, suc0: seq<nat>, v: nat)
    requires SucessoresValidos(vs, raiz, visitados0, suc0) && v in visitados0
    ensures ChamadaSucessores(vs, raiz, visitados0, suc0, visitados0, suc0, v)
  {
    assert visitados0 - visitados0 == {};
  }

  /** The outermost call lists, root first and without repetition, exactly the
      vertices reachable from the root. */
  lemma SucessoresAbrange(vs: seq<Vertice>, raiz: nat, visitados: set<nat>, suc: seq<nat>)
    requires ChamadaSucessores(vs, raiz, visitados, suc, {}, [], raiz)
    ensures |suc| > 0 && suc[0] == raiz && SemRepeticao(suc)
    ensures forall x: nat :: x in suc <==> x < |vs| && Alcanca(vs, raiz, x)
  {
    assert visitados - {} == visitados;
    forall x: nat | x < |vs| && Alcanca(vs, raiz, x) ensures x in suc {
      FechadoContemAlcancaveis(vs, visitados, raiz, x);
    }
  }

  // The predecessor search, within the vertices `w` still to be classified.

  /** Every vertex of `w` with an entry to a vertex of `f` is in `c`: the vertices
      of `f` are finished. */
  ghost predicate AntecessoresTerminados(vs: seq<Vertice>, w: set<nat>, f: set<nat>, c: set<nat>) {
    forall x, y :: x in w && y in f && x < |vs| && TemArcoPara(vs[x].adjacentes, y) ==> x in c
  }

  /** The predecessors found so far lie in `w` and reach `alvo`. */
  ghost predicate AntecessoresValidos(vs: seq<Vertice>, w: seq<nat>, alvo: nat, ant: set<nat>) {
    (forall y :: y in ant ==> y in w) && (forall y :: y in ant ==> Alcanca(vs, y, alvo))
  }

  /** What a call `EncontrarAntecessores(vn)` that began with `ant0` promises on
      return: `vn` is in, and every vertex added by the call is finished. */
  ghost predicate ChamadaAntecessores(vs: seq<Vertice>, w: seq<nat>, alvo: nat, ant: set<nat>, ant0: set<nat>, vn: nat) {
    AntecessoresValidos(vs, w, alvo, ant) && ant0 + {vn} <= ant &&
    AntecessoresTerminados(vs, Conjunto(w), ant - ant0, ant)
  }

  /** While the call on `vn` scans `w`, after the first `i` vertices. */
  ghost predicate EstadoAntecessores(vs: seq<Vertice>, w: seq<nat>, alvo: nat, ant: set<nat>,
                                     ant0: set<nat>, vn: nat, i: nat) {
    i <= |w| && AntecessoresValidos(vs, w, alvo, ant) && ant0 + {vn} <= ant && vn !in ant0 &&
    AntecessoresTerminados(vs, Conjunto(w), ant - ant0 - {vn}, ant) &&
    (forall k :: 0 <= k < i && w[k] < |vs| && TemArcoPara(vs[w[k]].adjacentes, vn) ==> w[k] in ant)
  }

  lemma AntecessoresInicio(vs: seq<Vertice>, w: seq<nat>, alvo: nat, ant0: set<nat>, vn: nat)
    requires vn in w && vn !in ant0 && Alcanca(vs, vn, alvo) && AntecessoresValidos(vs, w, alvo, ant0)
    ensures EstadoAntecessores(vs, w, alvo, ant0 + {vn}, ant0, vn, 0)
  {
    assert ant0 + {vn} - ant0 - {vn} == {};
  }

  /** Before the recursive call on a vertex of `w` with an entry to `vn`: it
      reaches `alvo`, and the set has grown since the call began. */
  lemma AntecessoresDesce(vs: seq<Vertice>, w: seq<nat>, alvo: nat, ant: set<nat>,
                          ant0: set<nat>, vn: nat, i: nat)
    requires BemFormado(vs) && (forall k :: 0 <= k < |w| ==> w[k] < |vs|)
    requires EstadoAntecessores(vs, w, alvo, ant, ant0, vn, i) && i < |w|
    requires w[i] !in ant && TemArcoPara(vs[w[i]].adjacentes, vn)
    ensures Alcanca(vs, w[i], alvo) && AntecessoresValidos(vs, w, alvo, ant)
    ensures |ant0| < |ant| <= |Conjunto(w)|
  {
    var x := w[i];
    var k :| 0 <= k < |vs[x].adjacentes| && vs[x].adjacentes[k].vizinho == vn;
    assert vs[x].adjacentes[k] in vs[x].adjacentes;
    AlcancaReflexivo(vs, x);
    AlcancaPasso(vs, x, x, vs[x].adjacentes[k]);
    assert vn in ant;
    AlcancaTransitivo(vs, x, vn, alvo);
    assert ant <= Conjunto(w);
    CardinalSubconjunto(ant, Conjunto(w));
    CardinalSubconjunto(ant0, ant);
  }

  /** After the recursive call returns, the scan moves past the vertex. */
  lemma AntecessoresSobe(vs: seq<Vertice>, w: seq<nat>, alvo: nat, ant: set<nat>,
                         ant0: set<nat>, vn: nat, i: nat, ant': set<nat>)
    requires EstadoAntecessores(vs, w, alvo, ant, ant0, vn, i) && i < |w|
    requires ChamadaAntecessores(vs, w, alvo, ant', ant, w[i])
    ensures EstadoAntecessores(vs, w, alvo, ant', ant0, vn, i + 1)
  {
    assert ant' - ant0 - {vn} == (ant - ant0 - {vn}) + (ant' - ant);
  }

  /** A vertex already found, or without an entry to `vn`, is passed over. */
  lemma AntecessoresPula(vs: seq<Vertice>, w: seq<nat>, alvo: nat, ant: set<nat>,
                         ant0: set<nat>, vn: nat, i: nat)
    requires EstadoAntecessores(vs, w, alvo, ant, ant0, vn, i) && i < |w|
    requires w[i] in ant || !(w[i] < |vs| && TemArcoPara(vs[w[i]].adjacentes, vn))
    ensures EstadoAntecessores(vs, w, alvo, ant, ant0, vn, i + 1)
  {
  }

  /** Once all of `w` is scanned, `vn` is finished too. */
  lemma AntecessoresFim(vs: seq<Vertice>, w: seq<nat>, alvo: nat, ant: set<nat>, ant0: set<nat>, vn: nat)
    requires EstadoAntecessores(vs, w, alvo, ant, ant0, vn, |w|)
    ensures ChamadaAntecessores(vs, w, alvo, ant, ant0, vn)
  {
    assert ant - ant0 == (ant - ant0 - {vn}) + {vn};
    forall x | x in Conjunto(w) && x < |vs| && TemArcoPara(vs[x].adjacentes, vn) ensures x in ant {
      var k :| 0 <= k < |w| && w[k] == x;
    }
  }

  /** The outermost call finds a set inside `w` that holds `alvo`, whose members
      reach `alvo`, and that every vertex of `w` with an entry into it belongs to. */
  lemma AntecessoresAbrange(vs: seq<Vertice>, w: seq<nat>, alvo: nat, ant: set<nat>)
    requires ChamadaAntecessores(vs, w, alvo, ant, {}, alvo)
    ensures alvo in ant && ant <= Conjunto(w) && (forall y :: y in ant ==> Alcanca(vs, y, alvo))
    ensures FechadoAntecessores(vs, Conjunto(w), ant)
  {
    assert ant - {} == ant;
  }

  // The rounds of the run.

  /** What is left to classify once the lists `listas` are found: every vertex is
      listed or still in `w`, and each vertex still in `w` is in no list and
      comes after the first vertex of each. */
  ghost predicate Restantes(vs: seq<Vertice>, w: seq<nat>, listas: seq<seq<nat>>)
    requires forall j :: 0 <= j < |listas| ==> |listas[j]| > 0
  {
    (forall j, x :: 0 <= j < |listas| && x in w ==> x !in listas[j] && listas[j][0] < x) &&
    (forall x :: 0 <= x < |vs| ==> Listado(listas, x) || x in w)
  }

  /** Between two calls of the run: `w` holds the vertices still to classify, in
      increasing order, and is a union of whole components; `listas` holds the
      components found so far, in order. */
  ghost predicate EstadoRoy(vs: seq<Vertice>, w: seq<nat>, listas: seq<seq<nat>>) {
    Crescente(w) && (forall i :: 0 <= i < |w| ==> w[i] < |vs|) && UniaoDeComponentes(vs, Conjunto(w)) &&
    ListasDeComponentes(vs, listas) && EmOrdem(listas) && Restantes(vs, w, listas)
  }

  lemma RoyInicio(vs: seq<Vertice>)
    ensures EstadoRoy(vs, Sequencia(|vs|), [])
  {
    var w := Sequencia(|vs|);
    forall x: nat | x < |vs| ensures x in w {
      assert w[x] == x;
    }
  }

  lemma RoyFim(vs: seq<Vertice>, listas: seq<seq<nat>>)
    requires EstadoRoy(vs, [], listas)
    ensures Particao(vs, listas) && EmOrdem(listas)
  {
  }

  /** The list of a round is the component of the first vertex left: it is what
      `v` reaches, filtered by the predecessors of `v` found inside `w`. */
  lemma ComponenteDaRodada(vs: seq<Vertice>, w: seq<nat>, suc: seq<nat>, ant: set<nat>, cl: seq<nat>)
    requires BemFormado(vs) && |w| > 0 && UniaoDeComponentes(vs, Conjunto(w))
    requires |suc| > 0 && suc[0] == w[0] && SemRepeticao(suc)
    requires forall x: nat :: x in suc <==> x < |vs| && Alcanca(vs, w[0], x)
    requires w[0] in ant && ant <= Conjunto(w) && (forall y :: y in ant ==> Alcanca(vs, y, w[0]))
    requires FechadoAntecessores(vs, Conjunto(w), ant)
    requires cl == Intersecta(suc, ant)
    ensures |cl| > 0 && cl[0] == w[0] && SemRepeticao(cl) && Conjunto(cl) == Componente(vs, w[0])
  {
    var v := w[0];
    IntersectaSemRepeticao(suc, ant);
    IntersectaPrimeiro(suc, ant);
    assert v in Conjunto(w);
    forall x | x in Componente(vs, v) ensures x in cl {
      var es :| EhPasseio(vs, x, es) && FimPasseio(x, es) == v;
      AntecessoresCompletos(vs, Conjunto(w), ant, v, v, x, es);
    }
  }

  /** The list of a round lies in `w`, and starts with its least vertex. */
  lemma RodadaEmW(vs: seq<Vertice>, w: seq<nat>, cl: seq<nat>)
    requires Crescente(w) && |w| > 0 && UniaoDeComponentes(vs, Conjunto(w))
    requires |cl| > 0 && cl[0] == w[0] && Conjunto(cl) == Componente(vs, w[0])
    ensures forall x :: x in cl ==> x in w && w[0] <= x
  {
    assert w[0] in Conjunto(w);
    forall x | x in cl ensures x in w && w[0] <= x {
      assert x in Componente(vs, w[0]);
      var k :| 0 <= k < |w| && w[k] == x;
    }
  }

  /** What is left after a round is again a union of whole components. */
  lemma RestoUniao(vs: seq<Vertice>, w: seq<nat>, cl: seq<nat>)
    requires |w| > 0 && UniaoDeComponentes(vs, Conjunto(w))
    requires Conjunto(cl) == Componente(vs, w[0])
    ensures UniaoDeComponentes(vs, Conjunto(Exceto(w, cl)))
  {
    var v := w[0];
    var r := Exceto(w, cl);
    forall a, b | a in Conjunto(r) && 0 <= b < |vs| && Alcanca(vs, a, b) && Alcanca(vs, b, a) ensures b in Conjunto(r) {
      assert a in Conjunto(w);
      if b in cl {
        assert b in Componente(vs, v);
        AlcancaTransitivo(vs, v, b, a);
        AlcancaTransitivo(vs, a, b, v);
        assert false;
      }
    }
  }

  /** The facts about the list `cl` of a round on `w`. */
  ghost predicate Rodada(vs: seq<Vertice>, w: seq<nat>, cl: seq<nat>) {
    |w| > 0 && |cl| > 0 && cl[0] == w[0] && SemRepeticao(cl) && Conjunto(cl) == Componente(vs, w[0]) &&
    (forall x :: x in cl ==> x in w && w[0] <= x)
  }

  /** The found lists stay components, in order, with the round's list appended. */
  lemma ListasAnexa(vs: seq<Vertice>, w: seq<nat>, listas: seq<seq<nat>>, cl: seq<nat>)
    requires ListasDeComponentes(vs, listas) && EmOrdem(listas) && Restantes(vs, w, listas) && Rodada(vs, w, cl)
    ensures ListasDeComponentes(vs, listas + [cl]) && EmOrdem(listas + [cl])
  {
    var l := listas + [cl];
    assert forall j :: 0 <= j < |listas| ==> l[j] == listas[j];
    assert l[|listas|] == cl;
    forall i, j, x | 0 <= i < j < |l| && x in l[i] ensures x !in l[j] {
    }
    forall i, j | 0 <= i < j < |l| ensures l[i][0] < l[j][0] {
      if j == |listas| { assert w[0] in w; }
    }
  }

  /** What is left after a round still satisfies `Restantes`. */
  lemma RestantesAnexa(vs: seq<Vertice>, w: seq<nat>, listas: seq<seq<nat>>, cl: seq<nat>)
    requires Crescente(w) && ListasDeComponentes(vs, listas) && Restantes(vs, w, listas) && Rodada(vs, w, cl)
    ensures forall j :: 0 <= j < |listas + [cl]| ==> |(listas + [cl])[j]| > 0
    ensures Restantes(vs, Exceto(w, cl), listas + [cl])
  {
    var r := Exceto(w, cl);
    var l := listas + [cl];
    assert forall j :: 0 <= j < |listas| ==> l[j] == listas[j];
    assert l[|listas|] == cl;
    forall x | 0 <= x < |vs| ensures Listado(l, x) || x in r {
      if Listado(listas, x) {
        var j :| 0 <= j < |listas| && x in listas[j];
        assert x in l[j];
      } else if x in cl {
        assert x in l[|listas|];
      }
    }
    forall j, x | 0 <= j < |l| && x in r ensures x !in l[j] && l[j][0] < x {
      if j == |listas| {
        var k :| 0 <= k < |w| && w[k] == x;
        assert k != 0;
      }
    }
  }

  /** A round appends its list to the components found and removes it from `w`. */
  lemma RoyAnexa(vs: seq<Vertice>, w: seq<nat>, listas: seq<seq<nat>>, cl: seq<nat>)
    requires EstadoRoy(vs, w, listas) && |w| > 0
    requires |cl| > 0 && cl[0] == w[0] && SemRepeticao(cl) && Conjunto(cl) == Componente(vs, w[0])
    ensures EstadoRoy(vs, Exceto(w, cl), listas + [cl]) && |Exceto(w, cl)| < |w|
  {
    RodadaEmW(vs, w, cl);
    ExcetoCrescente(w, cl);
    ExcetoEncurta(w, cl);
    RestoUniao(vs, w, cl);
    ListasAnexa(vs, w, listas, cl);
    RestantesAnexa(vs, w, listas, cl);
  }

  /** What the two searches of a round need from the state. */
  lemma RoyPreparaRodada(vs: seq<Vertice>, w: seq<nat>, listas: seq<seq<nat>>)
    requires EstadoRoy(vs, w, listas) && |w| > 0
    ensures w[0] < |vs| && w[0] in w && Alcanca(vs, w[0], w[0]) && (forall i :: 0 <= i < |w| ==> w[i] < |vs|)
    ensures SucessoresValidos(vs, w[0], {}, []) && AntecessoresValidos(vs, w, w[0], {})
  {
    AlcancaReflexivo(vs, w[0]);
  }

  /** A whole round: the successors of the first vertex of `w` filtered by its
      predecessors inside `w` are its component, which joins the lists and
      leaves `w`. */
  lemma RoyRodada(vs: seq<Vertice>, w: seq<nat>, listas: seq<seq<nat>>, visitados: set<nat>, suc: seq<nat>,
                  ant: set<nat>, cl: seq<nat>)
    requires BemFormado(vs) && EstadoRoy(vs, w, listas) && |w| > 0
    requires ChamadaSucessores(vs, w[0], visitados, suc, {}, [], w[0])
    requires ChamadaAntecessores(vs, w, w[0], ant, {}, w[0])
    requires cl == Intersecta(suc, ant)
    ensures forall i :: 0 <= i < |cl| ==> cl[i] < |vs|
    ensures EstadoRoy(vs, Exceto(w, cl), listas + [cl]) && |Exceto(w, cl)| < |w|
  {
    SucessoresAbrange(vs, w[0], visitados, suc);
    AntecessoresAbrange(vs, w, w[0], ant);
    ComponenteDaRodada(vs, w, suc, ant, cl);
    RoyAnexa(vs, w, listas, cl);
    forall i | 0 <= i < |cl| ensures cl[i] < |vs| {
      assert cl[i] in Componente(vs, w[0]);
    }
  }

  /** The message the run holds before its closing check: the graph-is-connected
      message once a reported list holds every vertex, and empty before. */
  function MensagemParcial(vs: seq<Vertice>, listas: seq<seq<nat>>, dirigido: bool): string {
    if Cobre(vs, listas, dirigido) then MensagemConexo(dirigido) else ""
  }

  /** A round's list is reported, and sets the message, as the engine decides. */
  lemma RoyRegistra(vs: seq<Vertice>, listas: seq<seq<nat>>, cl: seq<nat>, dirigido: bool, componente: seq<Aresta>)
    requires componente == ArestasDaComponente(vs, cl, dirigido)
    ensures Registradas(vs, listas + [cl], dirigido) ==
      Registradas(vs, listas, dirigido) + (if |cl| > 1 || |componente| > 0 then [componente] else [])
    ensures MensagemParcial(vs, listas + [cl], dirigido) ==
      if (|cl| > 1 || |componente| > 0) && |cl| == |vs| then MensagemConexo(dirigido) else MensagemParcial(vs, listas, dirigido)
  {
    var l := listas + [cl];
    assert l[..|l| - 1] == listas;
    CobreAnexa(vs, listas, cl, dirigido);
  }

  /** A list holding every vertex is reported after one more round exactly when it
      was before or this round's list is one. */
  lemma CobreAnexa(vs: seq<Vertice>, listas: seq<seq<nat>>, cl: seq<nat>, dirigido: bool)
    ensures Cobre(vs, listas + [cl], dirigido) <==>
      Cobre(vs, listas, dirigido) || (Registrada(vs, cl, dirigido) && |cl| == |vs|)
  {
    var l := listas + [cl];
    if Cobre(vs, l, dirigido) {
      var j :| 0 <= j < |l| && Registrada(vs, l[j], dirigido) && |l[j]| == |vs|;
      if j < |listas| {
        assert l[j] == listas[j];
      } else {
        assert l[j] == cl;
      }
    }
    if Cobre(vs, listas, dirigido) {
      var j :| 0 <= j < |listas| && Registrada(vs, listas[j], dirigido) && |listas[j]| == |vs|;
      assert l[j] == listas[j];
    }
    if Registrada(vs, cl, dirigido) && |cl| == |vs| {
      assert l[|listas|] == cl;
    }
  }

  /** The closing check replaces an empty message by the isolated-vertices one
      when nothing was reported. */
  lemma RoyMensagem(vs: seq<Vertice>, listas: seq<seq<nat>>, dirigido: bool)
    ensures MensagemRoy(vs, listas, dirigido) ==
      if Registradas(vs, listas, dirigido) == [] && |vs| > 0 then SoIsolados else MensagemParcial(vs, listas, dirigido)
  {
    RegistradasVazia(vs, listas, dirigido);
  }
  /** The closing message does not look at edges: for the directed graph
      `V1 -> V2`, whose components are single vertices without a self-loop, the
      run reports that the graph holds only isolated vertices without edges. */
  lemma IsoladosComArco(listas: seq<seq<nat>>)
    requires Particao([Vertice("V1", [Adjacente(1, 1)]), Vertice("V2", [])], listas)
    ensures MensagemRoy([Vertice("V1", [Adjacente(1, 1)]), Vertice("V2", [])], listas, true) == SoIsolados
  {
    var vs := [Vertice("V1", [Adjacente(1, 1)]), Vertice("V2", [])];
    assert Fechado(vs, {1});
    if Alcanca(vs, 1, 0) {
      FechadoContemAlcancaveis(vs, {1}, 1, 0);
    }
    SoIsolado(vs, 0);
    SoIsolado(vs, 1);
    assert !TemArcoPara(Adj(vs, 0), 0) && !TemArcoPara(Adj(vs, 1), 1);
    assert forall v :: 0 <= v < |vs| ==> Componente(vs, v) == {v} && !TemArcoPara(Adj(vs, v), v);
    MensagemIsolados(vs, listas, true);
    assert Registradas(vs, listas, true) == [];
    RegistradasVazia(vs, listas, true);
  }

  /** A vertex that reaches no other vertex that reaches it back is a component
      on its own. */
  lemma SoIsolado(vs: seq<Vertice>, v: nat)
    requires v < |vs|
    requires forall u :: 0 <= u < |vs| && u != v ==> !(Alcanca(vs, v, u) && Alcanca(vs, u, v))
    ensures Componente(vs, v) == {v}
  {
    AlcancaReflexivo(vs, v);
  }
}
