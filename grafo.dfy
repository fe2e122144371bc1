/** The graph engine: the graph object with its vertex list and direction flag,
    the editing commands that change it in place, and the algorithms and
    queries that read it. */
module Grafos {
  import opened Entidades
  import opened Caminhos
  import opened Texto
  import opened Edicao
  import opened Prim
  import opened Dijkstra
  import opened Componentes
  import opened Matrizes
  import opened Consultas
  import opened Buscas

  class Grafo {
    /** The vertex list; each vertex owns its adjacency list. */
    var vertices: seq<Vertice>
    var dirigido: bool

    /** Every adjacency entry names a vertex of the graph. */
    ghost predicate Valid()
      reads this
    {
      BemFormado(vertices)
    }

    /** An empty graph, directed or not. */
    constructor (dirigido: bool)
      ensures Valid() && vertices == [] && this.dirigido == dirigido
    {
      vertices := [];
      this.dirigido := dirigido;
    }

    // ----- editing -----

    /** Clearing the canvas empties the vertex list. */
    method LimparGrafo()
      modifies this
      ensures vertices == [] && dirigido == old(dirigido) && Valid()
    {
      vertices := [];
    }

    /** The name for a new vertex: `V1`, `V2`, ... the first one not in use. */
    method GerarNomeVertice() returns (nome: string)
      ensures !NomeUsado(vertices, nome)
      ensures exists i :: i >= 1 && nome == NomeGerado(i) &&
                          forall j :: 1 <= j < i ==> NomeUsado(vertices, NomeGerado(j))
    {
      var i := 1;
      ghost var vistos: set<nat> := {};
      while NomeUsado(vertices, NomeGerado(i))
        invariant i >= 1 && |vistos| == i - 1
        invariant forall j :: 1 <= j < i ==> NomeUsado(vertices, NomeGerado(j))
        invariant forall k :: k in vistos ==> k < |vertices| && NumeradoAbaixo(vertices[k].nome, i)
        decreases |vertices| - |vistos|
      {
        ghost var k :| 0 <= k < |vertices| && vertices[k].nome == NomeGerado(i);
        NomeSeguinte(vertices, vistos, i, k);
        UsadosSeguinte(vertices, i);
        vistos := vistos + {k};
        i := i + 1;
      }
      nome := NomeGerado(i);
    }

    /** Clicking an empty spot adds an isolated vertex with a generated name. */
    method AdicionarVertice() returns (nome: string)
      requires Valid()
      modifies this
      ensures vertices == old(vertices) + [Vertice(nome, [])] && dirigido == old(dirigido)
      ensures !NomeUsado(old(vertices), nome)
      ensures exists i :: i >= 1 && nome == NomeGerado(i) &&
                          forall j :: 1 <= j < i ==> NomeUsado(old(vertices), NomeGerado(j))
      ensures Valid()
      ensures Espelhado(old(vertices)) ==> Espelhado(vertices)
    {
      nome := GerarNomeVertice();
      vertices := vertices + [Vertice(nome, [])];
      assert forall i :: 0 <= i < |old(vertices)| ==> vertices[i] == old(vertices)[i];
    }

    /** Connecting `u` to `v`: the entry goes on `u`'s list and, for an undirected
        edge between distinct vertices, its mirror on `v`'s list. */
    method Conectar(u: nat, v: nat, peso: int)
      requires Valid() && u < |vertices| && v < |vertices|
      modifies this
      ensures vertices == ComAresta(old(vertices), u, v, peso, dirigido) && dirigido == old(dirigido)
      ensures Valid()
      ensures !dirigido && Espelhado(old(vertices)) ==> Espelhado(vertices)
    {
      var origem := vertices[u];
      vertices := vertices[u := Vertice(origem.nome, origem.adjacentes + [Adjacente(v, peso)])];
      if u != v && !dirigido {
        var destino := vertices[v];
        vertices := vertices[v := Vertice(destino.nome, destino.adjacentes + [Adjacente(u, peso)])];
      }
      ComArestaBemFormado(old(vertices), u, v, peso, dirigido);
      if !dirigido && Espelhado(old(vertices)) {
        ComArestaEspelhado(old(vertices), u, v, peso);
      }
    }

    /** Removing vertex `v`: every list loses its entries to `v`, then `v` leaves
        the vertex list. */
    method RemoverVertice(v: nat)
      requires Valid() && v < |vertices|
      modifies this
      ensures vertices == SemVertice(old(vertices), v) && dirigido == old(dirigido)
      ensures Valid()
      ensures Espelhado(old(vertices)) ==> Espelhado(vertices)
    {
      var k := 0;
      while k < |vertices|
        invariant 0 <= k <= |vertices| == |old(vertices)| && dirigido == old(dirigido)
        invariant forall i :: 0 <= i < k ==>
          vertices[i] == Vertice(old(vertices)[i].nome, SemArcosPara(old(vertices)[i].adjacentes, v))
        invariant forall i :: k <= i < |vertices| ==> vertices[i] == old(vertices)[i]
      {
        vertices := vertices[k := Vertice(vertices[k].nome, SemArcosPara(vertices[k].adjacentes, v))];
        k := k + 1;
      }
      var purgados := vertices;
      vertices := seq(|purgados| - 1, i requires 0 <= i < |purgados| - 1 =>
        var w := purgados[Antiga(i, v)];
        Vertice(w.nome, Renumera(w.adjacentes, v)));
      SemVerticeBemFormado(old(vertices), v);
      if Espelhado(old(vertices)) {
        SemVerticeEspelhado(old(vertices), v);
      }
    }

    /** Removing the entry at index `i` of `u`'s list (a self-loop or an edge the
        user clicked). For an undirected edge the neighbour loses every entry
        back to `u`. */
    method RemoverEntrada(u: nat, i: nat)
      requires Valid() && u < |vertices| && i < |vertices[u].adjacentes|
      modifies this
      ensures vertices == SemEntrada(old(vertices), u, i, dirigido) && dirigido == old(dirigido)
      ensures Valid()
      ensures !dirigido && Espelhado(old(vertices)) && old(vertices)[u].adjacentes[i].vizinho == u ==> Espelhado(vertices)
      ensures (!dirigido && Espelhado(old(vertices)) &&
               |PesosPara(old(vertices)[u].adjacentes, old(vertices)[u].adjacentes[i].vizinho)| == 1) ==> Espelhado(vertices)
    {
      var origem := vertices[u];
      var w := origem.adjacentes[i].vizinho;
      vertices := vertices[u := Vertice(origem.nome, origem.adjacentes[..i] + origem.adjacentes[i + 1..])];
      if w != u && !dirigido {
        var vizinho := vertices[w];
        vertices := vertices[w := Vertice(vizinho.nome, SemArcosPara(vizinho.adjacentes, u))];
      }
      SemEntradaBemFormado(old(vertices), u, i, dirigido);
      if !dirigido && Espelhado(old(vertices)) {
        if w == u {
          SemLacoEspelhado(old(vertices), u, i);
        } else if |PesosPara(old(vertices)[u].adjacentes, w)| == 1 {
          SemArestaSimplesEspelhado(old(vertices), u, i);
        }
      }
    }

    /** The first vertex, in list order, that has at least one entry. */
    method EscolherVerticeValido() returns (r: Option<nat>)
      ensures r.None? <==> forall i :: 0 <= i < |vertices| ==> vertices[i].adjacentes == []
      ensures r.Some? ==> r.value < |vertices| && vertices[r.value].adjacentes != []
      ensures r.Some? ==> forall i :: 0 <= i < r.value ==> vertices[i].adjacentes == []
    {
      var k := 0;
      while k < |vertices|
        invariant 0 <= k <= |vertices|
        invariant forall i :: 0 <= i < k ==> vertices[i].adjacentes == []
      {
        if |vertices[k].adjacentes| > 0 {
          return Some(k);
        }
        k := k + 1;
      }
      return None;
    }
    // ----- queries -----

    /** The adjacency listing: one line per vertex, in list order. */
    method ListarAdjacencias() returns (s: string)
      ensures s == Listagem(vertices, |vertices|)
    {
      s := "";
      var k := 0;
      while k < |vertices|
        invariant 0 <= k <= |vertices| && s == Listagem(vertices, k)
      {
        var v := vertices[k];
        var corpo := Isolado;
        if |v.adjacentes| > 0 {
          corpo := EscreverEntradas(v.adjacentes);
        }
        var linha := v.nome + Seta + corpo + FimDeLinha;
        assert linha == Linha(vertices, k);
        ListagemPasso(vertices, k);
        s := s + linha;
        k := k + 1;
      }
    }

    /** The text of the entries `adj`, one after the other. */
    method EscreverEntradas(adj: seq<Adjacente>) returns (corpo: string)
      ensures corpo == Entradas(vertices, adj)
    {
      corpo := "";
      var j := 0;
      while j < |adj|
        invariant 0 <= j <= |adj| && corpo == Entradas(vertices, adj[..j])
      {
        var e := adj[j];
        EntradasPasso(vertices, adj, j);
        corpo := corpo + (NomeDe(vertices, e.vizinho) + "(" + IntParaTexto(e.peso) + ") ");
        j := j + 1;
      }
      assert adj[..j] == adj;
    }

    // ----- minimum spanning tree -----

    /** Prim's algorithm as the engine runs it: from the vertex of least weight
        sum, repeatedly the lightest frontier edge that crosses the cut (the first
        one among equals) until every vertex is visited or none crosses. The
        steps are those of `PassoPrim`; the tree spans exactly what the start
        vertex reaches, along real entries, with at most one edge fewer than the
        graph has vertices. */
    method GerarArvoreGeradoraMinimaPrim() returns (mst: seq<Aresta>)
      requires Valid()
      ensures |vertices| == 0 ==> mst == []
      ensures |vertices| > 0 ==>
        (forall k :: 0 <= k < |mst| ==> PassoPrim(vertices, InicialPrim(vertices), mst, k)) &&
        FimPrim(vertices, InicialPrim(vertices), mst)
      ensures |vertices| > 0 ==>
        Cresce(InicialPrim(vertices), mst) && Reais(vertices, mst) && |mst| < |vertices| &&
        forall t: nat :: t in Visitados(InicialPrim(vertices), mst) <==> t < |vertices| && Alcanca(vertices, InicialPrim(vertices), t)
      ensures |vertices| > 0 ==>
        |mst| + 1 == |Alcancaveis(vertices, InicialPrim(vertices))| &&
        forall i, j :: 0 <= i < j < |mst| ==> mst[i].destino != mst[j].destino
    {
      mst := [];
      if |vertices| == 0 {
        return;
      }
      var inicial := InicialPrim(vertices);
      var visitados: set<nat> := {inicial};
      var disponiveis := ArestasIniciais(inicial);
      PrimInicio(vertices, inicial, disponiveis);
      while |visitados| < |vertices| && |disponiveis| > 0
        invariant EstadoPrim(vertices, inicial, mst, visitados, disponiveis)
        decreases |vertices| - |visitados|
      {
        var escolha := MenorCruzando(disponiveis, visitados);
        if escolha.None? {
          break;
        }
        PrimPasso(vertices, inicial, mst, visitados, disponiveis, escolha.value);
        var menor := disponiveis[escolha.value];
        mst := mst + [menor];
        var novo := if menor.origem in visitados then menor.destino else menor.origem;
        visitados := visitados + {novo};
        disponiveis := Expandir(inicial, novo, visitados, disponiveis);
      }
      PrimPara(vertices, inicial, mst, visitados, disponiveis);
      PassosTodos(vertices, inicial, mst);
      PrimCresce(vertices, inicial, mst);
      PrimAbrange(vertices, mst);
      FormaDeArvore(vertices, inicial, mst);
    }

    /** The initial frontier: every entry of `inicial`, as an edge. */
    method ArestasIniciais(inicial: nat) returns (disponiveis: seq<Aresta>)
      requires Valid() && inicial < |vertices|
      ensures disponiveis == Semente(vertices, inicial, |vertices[inicial].adjacentes|)
    {
      disponiveis := [];
      var adj := vertices[inicial].adjacentes;
      for j := 0 to |adj|
        invariant disponiveis == Semente(vertices, inicial, j)
      {
        SementePasso(vertices, inicial, j);
        disponiveis := disponiveis + [Aresta(inicial, adj[j].vizinho, adj[j].peso, vertices[inicial].nome + "-" + vertices[adj[j].vizinho].nome)];
      }
    }

    /** The frontier update when `novo` joins: an edge for each entry to a vertex
        not yet visited, still labelled after the start vertex. */
    method Expandir(inicial: nat, novo: nat, visitados: set<nat>, disponiveis0: seq<Aresta>) returns (disponiveis: seq<Aresta>)
      requires Valid() && novo < |vertices|
      ensures disponiveis == disponiveis0 + Expansao(vertices, inicial, novo, visitados, |vertices[novo].adjacentes|)
    {
      disponiveis := disponiveis0;
      var adj := vertices[novo].adjacentes;
      for j := 0 to |adj|
        invariant disponiveis == disponiveis0 + Expansao(vertices, inicial, novo, visitados, j)
      {
        ExpansaoPasso(vertices, inicial, novo, visitados, disponiveis0, disponiveis, j);
        var (vizinho, peso) := (adj[j].vizinho, adj[j].peso);
        if vizinho !in visitados {
          disponiveis := disponiveis + [Aresta(novo, vizinho, peso, NomeDe(vertices, inicial) + "-" + vertices[vizinho].nome)];
        }
      }
    }

    // ----- shortest paths -----

    /** Dijkstra's algorithm from `origem` as the engine runs it: the pending
        vertex of least distance (the first in vertex order among equals) is
        processed and its entries relaxed, until none is pending or the least
        distance is infinite. The tree holds one edge per predecessor-map key,
        in insertion order; the unreachable list holds, in vertex order, every
        vertex other than `origem` that `origem` does not reach. */
    method GerarArvoreCaminhosMinimos(origem: nat) returns (arvore: seq<Aresta>, inalcancaveis: seq<nat>)
      requires Valid() && origem < |vertices|
      ensures ArvoreDeCaminhos(vertices, origem, arvore)
      ensures forall v: nat :: v in inalcancaveis <==> v < |vertices| && v != origem && !Alcanca(vertices, origem, v)
      ensures forall i, j :: 0 <= i < j < |inalcancaveis| ==> inalcancaveis[i] < inalcancaveis[j]
    {
      var vs := vertices;
      var dist := DistanciasIniciais(origem);
      var anterior: map<nat, nat> := map[];
      var ordem: seq<nat> := [];
      var pendentes := Faixa(|vs|);
      ghost var processados: set<nat> := {};
      ghost var fila: seq<nat> := [];
      ghost var parou := false;
      DijkstraInicio(vs, origem, dist);
      while |pendentes| > 0
        invariant !parou && EstadoDijkstra(vs, origem, dist, pendentes, processados, anterior, ordem)
        invariant NaoNegativo(vs) ==> FilaDe(processados, fila, anterior)
        decreases |pendentes|
      {
        DijkstraEscolhe(vs, origem, dist, pendentes, processados, anterior, ordem);
        var atual := PrimeiroMinimo(dist, pendentes, |vs|).value;
        pendentes := pendentes - {atual};
        if dist[atual].Infinita? {
          parou := true;
          break;
        }
        ghost var dist0, anterior0, ordem0 := dist, anterior, ordem;
        dist, anterior, ordem := Relaxar(origem, atual, dist, anterior, ordem, pendentes, processados);
        if NaoNegativo(vs) {
          FilaRodada(processados, fila, dist0, anterior0, ordem0, dist, anterior, ordem, atual);
        }
        DijkstraFimRodada(vs, origem, dist, pendentes, processados, anterior, ordem, atual);
        processados := processados + {atual};
        fila := fila + [atual];
      }
      if !parou {
        DijkstraEsgotado(vs, origem, dist, processados, anterior, ordem);
      }
      arvore, inalcancaveis := ResultadoCaminhos(origem, dist, processados, anterior, ordem, fila);
    }

    /** What the run hands back once the loop stops: the tree built from the
        predecessor map and the vertices left at infinity. */
    method ResultadoCaminhos(origem: nat, dist: seq<Distancia>, ghost processados: set<nat>,
                             anterior: map<nat, nat>, ordem: seq<nat>, ghost fila: seq<nat>)
      returns (arvore: seq<Aresta>, inalcancaveis: seq<nat>)
      requires FimDijkstra(vertices, origem, dist, processados, anterior, ordem)
      requires NaoNegativo(vertices) ==> FilaDe(processados, fila, anterior)
      ensures ArvoreDeCaminhos(vertices, origem, arvore)
      ensures forall v: nat :: v in inalcancaveis <==> v < |vertices| && v != origem && !Alcanca(vertices, origem, v)
      ensures forall i, j :: 0 <= i < j < |inalcancaveis| ==> inalcancaveis[i] < inalcancaveis[j]
    {
      arvore := MontarArvore(anterior, ordem);
      inalcancaveis := ListaInalcancaveis(dist, origem, |vertices|);
      DijkstraConclui(vertices, origem, dist, processados, anterior, ordem, fila, arvore, inalcancaveis);
    }

    /** Every vertex starts at infinity, and then `origem` at 0. */
    method DistanciasIniciais(origem: nat) returns (dist: seq<Distancia>)
      requires origem < |vertices|
      ensures |dist| == |vertices| && dist[origem] == Finita(0)
      ensures forall v :: 0 <= v < |vertices| && v != origem ==> dist[v] == Infinita
    {
      dist := [];
      for i := 0 to |vertices|
        invariant |dist| == i && forall v :: 0 <= v < i ==> dist[v] == Infinita
      {
        dist := dist + [Infinita];
      }
      dist := dist[origem := Finita(0)];
    }

    /** The relaxation of every entry of `atual`, in list order, re-reading
        `dist[atual]` each time; an improved neighbour takes `atual` as its
        predecessor, and a new key goes to the end of the insertion order. */
    method Relaxar(ghost origem: nat, atual: nat, dist0: seq<Distancia>, anterior0: map<nat, nat>, ordem0: seq<nat>,
                   ghost pendentes: set<nat>, ghost processados: set<nat>)
      returns (dist: seq<Distancia>, anterior: map<nat, nat>, ordem: seq<nat>)
      requires EstadoRelaxa(vertices, origem, dist0, pendentes, processados, anterior0, ordem0, atual, 0)
      ensures EstadoRelaxa(vertices, origem, dist, pendentes, processados, anterior, ordem, atual, |vertices[atual].adjacentes|)
      ensures EfeitoRodada(dist0, anterior0, ordem0, dist, anterior, ordem, atual)
      ensures NaoNegativo(vertices) ==> SoPendentes(dist0, dist, processados, atual)
      ensures NaoNegativo(vertices) ==> MinimoDaRodada(vertices, dist0, dist, atual)
    {
      var vs := vertices;
      var adj := vs[atual].adjacentes;
      dist, anterior, ordem := dist0, anterior0, ordem0;
      EfeitoInicio(dist0, anterior0, ordem0, atual);
      for j := 0 to |adj|
        invariant EstadoRelaxa(vs, origem, dist, pendentes, processados, anterior, ordem, atual, j)
        invariant EfeitoRodada(dist0, anterior0, ordem0, dist, anterior, ordem, atual)
        invariant NaoNegativo(vs) ==> SoPendentes(dist0, dist, processados, atual)
      {
        var e := adj[j];
        assert e in vs[atual].adjacentes;
        var alt := dist[atual].valor + e.peso;
        if AntesDe(Finita(alt), dist[e.vizinho]) {
          DijkstraMelhora(vs, origem, dist, pendentes, processados, anterior, ordem, atual, j, e, alt);
          EfeitoMelhora(dist0, anterior0, ordem0, dist, anterior, ordem, atual, e.vizinho, Finita(alt));
          if NaoNegativo(vs) {
            SoPendentesMelhora(dist0, dist, processados, atual, e.vizinho, Finita(alt));
          }
          ordem := if e.vizinho in anterior then ordem else ordem + [e.vizinho];
          dist := dist[e.vizinho := Finita(alt)];
          anterior := anterior[e.vizinho := atual];
        } else {
          DijkstraMantem(vs, origem, dist, pendentes, processados, anterior, ordem, atual, j);
        }
      }
      if NaoNegativo(vs) {
        RodadaMinima(vs, origem, pendentes, processados, atual, dist0, anterior0, ordem0, dist, anterior, ordem);
      }
    }

    /** One edge per key of the predecessor map, in insertion order: from the
        predecessor, weighed by its first entry to the key, labelled `u->v`. */
    method MontarArvore(anterior: map<nat, nat>, ordem: seq<nat>) returns (resultado: seq<Aresta>)
      requires forall v :: v in anterior ==> anterior[v] < |vertices| && TemArcoPara(vertices[anterior[v]].adjacentes, v)
      requires forall k :: 0 <= k < |ordem| ==> ordem[k] in anterior
      ensures MontadaDe(vertices, anterior, ordem, resultado)
    {
      resultado := [];
      for k := 0 to |ordem|
        invariant MontadaDe(vertices, anterior, ordem[..k], resultado)
      {
        var v := ordem[k];
        var u := anterior[v];
        var peso := PrimeiroPeso(vertices[u].adjacentes, v);
        var a := Aresta(u, v, peso, vertices[u].nome + "->" + NomeDe(vertices, v));
        assert ordem[..k + 1] == ordem[..k] + [v];
        MontadaAnexa(vertices, anterior, ordem[..k], resultado, v, a);
        resultado := resultado + [a];
      }
      assert ordem[..|ordem|] == ordem;
    }

    // ----- searches -----

    /** Breadth-first search from `origem`: the tree grows along real entries,
        reaches exactly the vertices reachable from `origem`, and names each edge
        after its two ends. */
    method BuscaLargura(origem: nat) returns (arvore: seq<Aresta>)
      requires Valid() && origem < |vertices|
      ensures Cresce(origem, arvore) && Reais(vertices, arvore) && Rotuladas(vertices, arvore)
      ensures forall t: nat :: t in Visitados(origem, arvore) <==> t < |vertices| && Alcanca(vertices, origem, t)
      ensures |arvore| + 1 == |Alcancaveis(vertices, origem)|
      ensures forall i :: 0 <= i < |arvore| ==> arvore[i].destino != origem
      ensures forall i, j :: 0 <= i < j < |arvore| ==> arvore[i].destino != arvore[j].destino
    {
      arvore := [];
      var visitados: set<nat> := {origem};
      var fila: seq<nat> := [origem];
      ghost var feitos: set<nat> := {};
      LarguraInicio(vertices, origem);
      while |fila| > 0
        invariant EstadoLargura(vertices, origem, arvore, visitados, fila, feitos)
        decreases |vertices| - |visitados|, |fila|
      {
        LarguraRetira(vertices, origem, arvore, visitados, fila, feitos);
        var atual := fila[0];
        fila := fila[1..];
        ghost var antes, fila0 := visitados, fila;
        var adj := vertices[atual].adjacentes;
        for j := 0 to |adj|
          invariant EstadoVizinhos(vertices, origem, arvore, visitados, fila, feitos, atual, antes, fila0, j)
        {
          LarguraPasso(vertices, origem, arvore, visitados, fila, feitos, atual, antes, fila0, j);
          var (vizinho, peso) := (adj[j].vizinho, adj[j].peso);
          if vizinho !in visitados {
            visitados := visitados + {vizinho};
            fila := fila + [vizinho];
            arvore := arvore + [Aresta(atual, vizinho, peso, vertices[atual].nome + "-" + vertices[vizinho].nome)];
          }
        }
        LarguraFimVizinhos(vertices, origem, arvore, visitados, fila, feitos, atual, antes, fila0);
        feitos := feitos + {atual};
      }
      LarguraFim(vertices, origem, arvore, visitados, feitos);
      FormaDeArvore(vertices, origem, arvore);
    }

    /** Depth-first search from `origem`: the tree grows along real entries,
        reaches exactly the vertices reachable from `origem`, and names each edge
        after its two ends. */
    method BuscaProfundidade(origem: nat) returns (arvore: seq<Aresta>)
      requires Valid() && origem < |vertices|
      ensures Cresce(origem, arvore) && Reais(vertices, arvore) && Rotuladas(vertices, arvore)
      ensures forall t: nat :: t in Visitados(origem, arvore) <==> t < |vertices| && Alcanca(vertices, origem, t)
      ensures |arvore| + 1 == |Alcancaveis(vertices, origem)|
      ensures forall i :: 0 <= i < |arvore| ==> arvore[i].destino != origem
      ensures forall i, j :: 0 <= i < j < |arvore| ==> arvore[i].destino != arvore[j].destino
    {
      var visitados;
      visitados, arvore := Dfs(origem, {}, [], origem);
      ProfundidadeAbrange(vertices, origem, arvore, visitados);
      FormaDeArvore(vertices, origem, arvore);
    }

    /** The nested `DFS(v)`: `v` is marked visited, then each entry to an unvisited
        neighbour adds its tree edge and recurses. The tree edge to `v` is already
        in `arvore0`; on return every vertex visited by the call is finished. */
    method Dfs(v: nat, visitados0: set<nat>, arvore0: seq<Aresta>, ghost s: nat) returns (visitados: set<nat>, arvore: seq<Aresta>)
      requires Valid() && v < |vertices| && v !in visitados0
      requires ArvoreDeBusca(vertices, s, arvore0, visitados0 + {v})
      ensures ChamadaProfundidade(vertices, s, arvore, visitados, visitados0, v)
      decreases |vertices| - |visitados0|
    {
      visitados := visitados0 + {v};
      arvore := arvore0;
      ProfundidadeInicio(vertices, s, arvore, visitados0, v);
      var adj := vertices[v].adjacentes;
      for j := 0 to |adj|
        invariant EstadoProfundidade(vertices, s, arvore, visitados, visitados0, v, j)
      {
        var (vizinho, peso) := (adj[j].vizinho, adj[j].peso);
        if vizinho !in visitados {
          ProfundidadeDesce(vertices, s, arvore, visitados, visitados0, v, j);
          var visitados', arvore' := Dfs(vizinho, visitados, arvore + [Aresta(v, vizinho, peso, vertices[v].nome + "-" + vertices[vizinho].nome)], s);
          ProfundidadeSobe(vertices, s, arvore, visitados, visitados0, v, j, arvore', visitados');
          visitados, arvore := visitados', arvore';
        } else {
          ProfundidadePula(vertices, s, arvore, visitados, visitados0, v, j);
        }
      }
      ProfundidadeFim(vertices, s, arvore, visitados, visitados0, v);
    }

    // ----- strongly connected components -----

    /** Roy's algorithm: the edge lists of the reported strongly connected
        components, in the order of their least vertices, and the message.
        `listas` names the components the run found. */
    method Roy() returns (componentes: seq<seq<Aresta>>, mensagem: string, ghost listas: seq<seq<nat>>)
      requires Valid()
      ensures Particao(vertices, listas) && EmOrdem(listas)
      ensures componentes == Registradas(vertices, listas, dirigido)
      ensures mensagem == MensagemRoy(vertices, listas, dirigido)
    {
      var copia := Sequencia(|vertices|);
      RoyInicio(vertices);
      componentes, mensagem, listas := AlgoritmoRoy(copia, [], "", []);
      RoyFim(vertices, listas);
      RoyMensagem(vertices, listas, dirigido);
      if |componentes| == 0 && |vertices| > 0 {
        mensagem := SoIsolados;
      }
    }

    /** The recursive `algoritmoRoy(w)`: the component of the first vertex of `w`
        is split off, reported when it has more than one vertex or an edge, and
        the run goes on with the rest of `w`. */
    method AlgoritmoRoy(w: seq<nat>, componentes0: seq<seq<Aresta>>, mensagem0: string, ghost listas0: seq<seq<nat>>)
      returns (componentes: seq<seq<Aresta>>, mensagem: string, ghost listas: seq<seq<nat>>)
      requires Valid() && EstadoRoy(vertices, w, listas0)
      requires componentes0 == Registradas(vertices, listas0, dirigido)
      requires mensagem0 == MensagemParcial(vertices, listas0, dirigido)
      ensures EstadoRoy(vertices, [], listas) && listas0 <= listas
      ensures componentes == Registradas(vertices, listas, dirigido)
      ensures mensagem == MensagemParcial(vertices, listas, dirigido)
      decreases |w|
    {
      if |w| == 0 {
        return componentes0, mensagem0, listas0;
      }
      var v := w[0];
      RoyPreparaRodada(vertices, w, listas0);
      var visitados, sucessores := EncontrarSucessores(v, {}, [], v);
      var antecessores := EncontrarAntecessores(v, w, {}, v);
      var verticesComponente := Intersecta(sucessores, antecessores);
      RoyRodada(vertices, w, listas0, visitados, sucessores, antecessores, verticesComponente);
      var componente := CriarArestasComponente(verticesComponente);
      RoyRegistra(vertices, listas0, verticesComponente, dirigido, componente);
      componentes, mensagem := componentes0, mensagem0;
      if |verticesComponente| > 1 || |componente| > 0 {
        if |verticesComponente| == |vertices| {
          mensagem := if dirigido then ConexoDirigido else ConexoNaoDirigido;
        }
        componentes := componentes + [componente];
      }
      var resto := Exceto(w, verticesComponente);
      componentes, mensagem, listas := AlgoritmoRoy(resto, componentes, mensagem, listas0 + [verticesComponente]);
    }

    /** The nested `EncontrarSucessores(vp)`: a depth-first search that lists each
        vertex it visits, in visiting order. */
    method EncontrarSucessores(vp: nat, visitados0: set<nat>, sucessores0: seq<nat>, ghost raiz: nat)
      returns (visitados: set<nat>, sucessores: seq<nat>)
      requires Valid() && vp < |vertices| && Alcanca(vertices, raiz, vp)
      requires SucessoresValidos(vertices, raiz, visitados0, sucessores0)
      ensures ChamadaSucessores(vertices, raiz, visitados, sucessores, visitados0, sucessores0, vp)
      decreases |vertices| - |visitados0|
    {
      if vp in visitados0 {
        SucessoresVisitado(vertices, raiz, visitados0, sucessores0, vp);
        return visitados0, sucessores0;
      }
      visitados := visitados0 + {vp};
      sucessores := sucessores0 + [vp];
      SucessoresInicio(vertices, raiz, visitados0, sucessores0, vp);
      var adj := vertices[vp].adjacentes;
      for j := 0 to |adj|
        invariant EstadoSucessores(vertices, raiz, visitados, sucessores, visitados0, sucessores0, vp, j)
      {
        var vizinho := adj[j].vizinho;
        if vizinho !in visitados {
          SucessoresDesce(vertices, raiz, visitados, sucessores, visitados0, sucessores0, vp, j);
          var visitados', sucessores' := EncontrarSucessores(vizinho, visitados, sucessores, raiz);
          SucessoresSobe(vertices, raiz, visitados, sucessores, visitados0, sucessores0, vp, j, visitados', sucessores');
          visitados, sucessores := visitados', sucessores';
        } else {
          SucessoresPula(vertices, raiz, visitados, sucessores, visitados0, sucessores0, vp, j);
        }
      }
      SucessoresFim(vertices, raiz, visitados, sucessores, visitados0, sucessores0, vp);
    }

    /** The nested `EncontrarAntecessores(vn)`: `vn` is added, then every vertex of
        `w` not yet found that has an entry to `vn` is searched in turn. */
    method EncontrarAntecessores(vn: nat, w: seq<nat>, antecessores0: set<nat>, ghost alvo: nat)
      returns (antecessores: set<nat>)
      requires Valid() && (forall i :: 0 <= i < |w| ==> w[i] < |vertices|)
      requires vn in w && vn !in antecessores0 && Alcanca(vertices, vn, alvo)
      requires AntecessoresValidos(vertices, w, alvo, antecessores0)
      ensures ChamadaAntecessores(vertices, w, alvo, antecessores, antecessores0, vn)
      decreases |Conjunto(w)| - |antecessores0|
    {
      antecessores := antecessores0 + {vn};
      AntecessoresInicio(vertices, w, alvo, antecessores0, vn);
      for i := 0 to |w|
        invariant EstadoAntecessores(vertices, w, alvo, antecessores, antecessores0, vn, i)
      {
        var vertice := w[i];
        if vertice !in antecessores && TemArcoPara(vertices[vertice].adjacentes, vn) {
          AntecessoresDesce(vertices, w, alvo, antecessores, antecessores0, vn, i);
          var antecessores' := EncontrarAntecessores(vertice, w, antecessores, alvo);
          AntecessoresSobe(vertices, w, alvo, antecessores, antecessores0, vn, i, antecessores');
          antecessores := antecessores';
        } else {
          AntecessoresPula(vertices, w, alvo, antecessores, antecessores0, vn, i);
        }
      }
      AntecessoresFim(vertices, w, alvo, antecessores, antecessores0, vn);
    }

    /** The edges of the component `cl`, vertex by vertex and entry by entry. */
    method CriarArestasComponente(cl: seq<nat>) returns (componente: seq<Aresta>)
      requires Valid() && forall i :: 0 <= i < |cl| ==> cl[i] < |vertices|
      ensures componente == ArestasDaComponente(vertices, cl, dirigido)
    {
      componente := [];
      for k := 0 to |cl|
        invariant componente == ArestasComponente(vertices, cl, dirigido, k)
      {
        var arestas := ArestasDoVertice(cl[k], cl);
        componente := componente + arestas;
      }
      assert cl[..|cl|] == cl;
    }

    /** The edges the entries of `vc` contribute to the component `cl`: an entry
        into `cl` is kept unless the graph is undirected and `vc`'s name sorts
        after the neighbour's. */
    method ArestasDoVertice(vc: nat, cl: seq<nat>) returns (arestas: seq<Aresta>)
      requires Valid() && vc < |vertices|
      ensures arestas == ArestasDe(vertices, vc, cl, dirigido, |Adj(vertices, vc)|)
    {
      arestas := [];
      var adj := vertices[vc].adjacentes;
      for j := 0 to |adj|
        invariant arestas == ArestasDe(vertices, vc, cl, dirigido, j)
      {
        var (vizinho, peso) := (adj[j].vizinho, adj[j].peso);
        if vizinho in cl && (dirigido || !Menor(vertices[vizinho].nome, vertices[vc].nome)) {
          var nome := vertices[vc].nome + (if dirigido then "->" else "-") + vertices[vizinho].nome;
          arestas := arestas + [Aresta(vc, vizinho, peso, nome)];
        }
      }
    }

    /** Whether the vertex named `v1Nome` has an entry to the vertex named
        `v2Nome`: names are trimmed and compared ignoring case, the first match
        in list order stands for each name, and an entry also counts when its
        neighbour merely shares the second vertex's name. */
    function SaoAdjacentes(v1Nome: string, v2Nome: string): (r: bool)
      reads this
      ensures r ==> !EmBranco(v1Nome) && !EmBranco(v2Nome)
      ensures r ==> exists u, k :: 0 <= u < |vertices| && 0 <= k < |vertices[u].adjacentes| &&
                                   IguaisSemCaixa(vertices[u].nome, Apara(v1Nome)) &&
                                   IguaisSemCaixa(NomeDe(vertices, vertices[u].adjacentes[k].vizinho), Apara(v2Nome))
    {
      if EmBranco(v1Nome) || EmBranco(v2Nome) then false
      else
        var p := Procura(vertices, Apara(v1Nome));
        var q := Procura(vertices, Apara(v2Nome));
        if p.None? || q.None? then false
        else
          var adj := vertices[p.value].adjacentes;
          var nq := vertices[q.value].nome;
          forall k | 0 <= k < |adj|
            ensures IguaisSemCaixa(NomeDe(vertices, adj[k].vizinho), nq) ==>
                    IguaisSemCaixa(NomeDe(vertices, adj[k].vizinho), Apara(v2Nome))
          {
            IguaisSemCaixaEquivalencia(NomeDe(vertices, adj[k].vizinho), nq, Apara(v2Nome));
          }
          exists k :: 0 <= k < |adj| && (adj[k].vizinho == q.value || IguaisSemCaixa(NomeDe(vertices, adj[k].vizinho), nq))
    }

    /** `u` has an entry whose neighbour carries the second name: the relation
        `SaoAdjacentes` tests, stated over all vertices that carry the names. */
    ghost predicate EntradaEntreNomes(a: string, b: string)
      reads this
    {
      exists u, k :: 0 <= u < |vertices| && 0 <= k < |vertices[u].adjacentes| &&
                     IguaisSemCaixa(vertices[u].nome, a) &&
                     IguaisSemCaixa(NomeDe(vertices, vertices[u].adjacentes[k].vizinho), b)
    }

    /** With names unique ignoring case, the test is exact: it holds precisely
        when both names are non-blank and, once trimmed, the first vertex has an
        entry to the second. */
    lemma SaoAdjacentesExato(v1Nome: string, v2Nome: string)
      requires Valid() && NomesUnicos(vertices)
      ensures SaoAdjacentes(v1Nome, v2Nome) <==>
        !EmBranco(v1Nome) && !EmBranco(v2Nome) && EntradaEntreNomes(Apara(v1Nome), Apara(v2Nome))
    {
      var a, b := Apara(v1Nome), Apara(v2Nome);
      if !EmBranco(v1Nome) && !EmBranco(v2Nome) && EntradaEntreNomes(a, b) {
        var u, k :| 0 <= u < |vertices| && 0 <= k < |vertices[u].adjacentes| &&
                    IguaisSemCaixa(vertices[u].nome, a) &&
                    IguaisSemCaixa(NomeDe(vertices, vertices[u].adjacentes[k].vizinho), b);
        assert vertices[u].adjacentes[k] in vertices[u].adjacentes;
        var w := vertices[u].adjacentes[k].vizinho;
        var p, q := Procura(vertices, a), Procura(vertices, b);
        IguaisSemCaixaEquivalencia(vertices[u].nome, a, a);
        IguaisSemCaixaEquivalencia(vertices[p.value].nome, a, vertices[u].nome);
        IguaisSemCaixaEquivalencia(vertices[w].nome, b, b);
        IguaisSemCaixaEquivalencia(vertices[q.value].nome, b, vertices[w].nome);
        assert p.value == u && q.value == w;
      }
    }

    /** An entry between two named vertices has a mirror entry back. */
    lemma EntradaEspelhada(a: string, b: string)
      requires Valid() && Espelhado(vertices) && EntradaEntreNomes(a, b)
      ensures EntradaEntreNomes(b, a)
    {
      var u, k :| 0 <= u < |vertices| && 0 <= k < |vertices[u].adjacentes| &&
                  IguaisSemCaixa(vertices[u].nome, a) &&
                  IguaisSemCaixa(NomeDe(vertices, vertices[u].adjacentes[k].vizinho), b);
      var w := vertices[u].adjacentes[k].vizinho;
      if u == w {
        assert IguaisSemCaixa(vertices[u].nome, b) && IguaisSemCaixa(NomeDe(vertices, vertices[u].adjacentes[k].vizinho), a);
      } else {
        EntradaDeVolta(vertices, u, k);
        var k' :| 0 <= k' < |vertices[w].adjacentes| && vertices[w].adjacentes[k'].vizinho == u;
        assert IguaisSemCaixa(vertices[w].nome, b) && IguaisSemCaixa(NomeDe(vertices, vertices[w].adjacentes[k'].vizinho), a);
      }
    }

    /** In an undirected graph with names unique ignoring case the test is symmetric. */
    lemma SaoAdjacentesSimetrico(v1Nome: string, v2Nome: string)
      requires Valid() && NomesUnicos(vertices) && Espelhado(vertices)
      ensures SaoAdjacentes(v1Nome, v2Nome) == SaoAdjacentes(v2Nome, v1Nome)
    {
      SaoAdjacentesExato(v1Nome, v2Nome);
      SaoAdjacentesExato(v2Nome, v1Nome);
      if SaoAdjacentes(v1Nome, v2Nome) {
        EntradaEspelhada(Apara(v1Nome), Apara(v2Nome));
      }
      if SaoAdjacentes(v2Nome, v1Nome) {
        EntradaEspelhada(Apara(v2Nome), Apara(v1Nome));
      }
    }

    /** The adjacency matrix: cell `(i, j)` holds the weight of the last entry
        from `i` to `j`, and 0 where there is none. */
    method GerarMatrizAdjacencia() returns (m: array2<int>)
      requires Valid()
      ensures fresh(m) && m.Length0 == |vertices| && m.Length1 == |vertices|
      ensures forall i, j :: 0 <= i < |vertices| && 0 <= j < |vertices| ==> m[i, j] == PesoMatriz(vertices[i].adjacentes, j)
    {
      var n := |vertices|;
      m := new int[n, n];
      for i := 0 to n
        invariant forall a, b :: 0 <= a < i && 0 <= b < n ==> m[a, b] == 0
      {
        for j := 0 to n
          invariant forall a, b :: 0 <= a < i && 0 <= b < n ==> m[a, b] == 0
          invariant forall b :: 0 <= b < j ==> m[i, b] == 0
        {
          m[i, j] := 0;
        }
      }
      for i := 0 to n
        invariant forall a, b :: 0 <= a < i && 0 <= b < n ==> m[a, b] == PesoMatriz(vertices[a].adjacentes, b)
        invariant forall a, b :: i <= a < n && 0 <= b < n ==> m[a, b] == 0
      {
        var adj := vertices[i].adjacentes;
        for k := 0 to |adj|
          invariant forall a, b :: 0 <= a < i && 0 <= b < n ==> m[a, b] == PesoMatriz(vertices[a].adjacentes, b)
          invariant forall a, b :: i < a < n && 0 <= b < n ==> m[a, b] == 0
          invariant forall b :: 0 <= b < n ==> m[i, b] == PesoMatriz(adj[..k], b)
        {
          assert adj[k] in vertices[i].adjacentes;
          var j := adj[k].vizinho;
          m[i, j] := adj[k].peso;
          forall b | 0 <= b < n ensures m[i, b] == PesoMatriz(adj[..k + 1], b) {
            PesoMatrizPasso(adj, k, b);
          }
        }
        assert adj[..|adj|] == adj;
      }
    }

    /** The edge list of the incidence matrix, vertex by vertex. */
    method ListarArestasIncidencia() returns (arestas: seq<Aresta>)
      ensures arestas == ArestasIncidencia(vertices, dirigido, |vertices|)
    {
      var vs, dir := vertices, dirigido;
      arestas := [];
      for v := 0 to |vs|
        invariant arestas == ArestasIncidencia(vs, dir, v)
      {
        var novas := ArestasIncidenciaDoVertice(vs, v, dir);
        arestas := arestas + novas;
      }
    }

    /** The incidence matrix with its edge list: a directed graph lists every
        entry, an undirected one only the entries whose origin's name comes first;
        column `j` marks the ends of edge `j`. */
    method GerarMatrizIncidencia() returns (m: array2<int>, arestas: seq<Aresta>)
      requires Valid()
      ensures arestas == ArestasIncidencia(vertices, dirigido, |vertices|)
      ensures fresh(m) && m.Length0 == |vertices| && m.Length1 == |arestas|
      ensures forall i, j :: 0 <= i < |vertices| && 0 <= j < |arestas| ==> m[i, j] == ValorIncidencia(arestas[j], i, dirigido)
    {
      var n := |vertices|;
      arestas := ListarArestasIncidencia();
      forall j | 0 <= j < |arestas| ensures arestas[j].origem < n && arestas[j].destino < n {
        ArestasIncidenciaMembro(vertices, dirigido, n, arestas[j]);
      }
      m := new int[n, |arestas|]((i, j) => 0);
      for j := 0 to |arestas|
        invariant forall i, c :: 0 <= i < n && 0 <= c < j ==> m[i, c] == ValorIncidencia(arestas[c], i, dirigido)
        invariant forall i, c :: 0 <= i < n && j <= c < |arestas| ==> m[i, c] == 0
      {
        var a := arestas[j];
        m[a.origem, j] := 1;
        m[a.destino, j] := if dirigido then -1 else 1;
      }
    }
  }

  /** The edges the entries of vertex `v` contribute to the incidence matrix,
      entry by entry: every entry in a directed graph, the entries whose origin's
      name comes first otherwise. */
  method ArestasIncidenciaDoVertice(vs: seq<Vertice>, v: nat, dirigido: bool) returns (arestas: seq<Aresta>)
    requires v < |vs|
    ensures arestas == ArestasVertice(vs, v, dirigido, |Adj(vs, v)|)
  {
    var adj := vs[v].adjacentes;
    arestas := [];
    for k := 0 to |adj|
      invariant arestas == ArestasVertice(vs, v, dirigido, k)
    {
      var viz := adj[k].vizinho;
      ArestasVerticeAnexa(vs, v, dirigido, k, [], arestas);
      if dirigido || Menor(vs[v].nome, NomeDe(vs, viz)) {
        arestas := arestas + [Aresta(v, viz, adj[k].peso, vs[v].nome + "-" + NomeDe(vs, viz))];
      }
    }
  }

  /** `s` reads `V` followed by the decimal digits of a number from 1 to `i - 1`. */
  predicate NumeradoAbaixo(s: string, i: nat) {
    |s| >= 2 && s[0] == 'V' && SoDigitos(s[1..]) && 1 <= ValorDecimal(s[1..]) < i
  }

  /** The names `V1` .. `V<i>` are all in use once `V<i>` is. */
  lemma UsadosSeguinte(vs: seq<Vertice>, i: nat)
    requires forall j :: 1 <= j < i ==> NomeUsado(vs, NomeGerado(j))
    requires NomeUsado(vs, NomeGerado(i))
    ensures forall j :: 1 <= j < i + 1 ==> NomeUsado(vs, NomeGerado(j))
  {
  }

  /** A vertex named `V<i>` is not among those named below `i`; with it they
      are the vertices named below `i + 1`, and there is room for one more. */
  lemma NomeSeguinte(vs: seq<Vertice>, vistos: set<nat>, i: nat, k: nat)
    requires i >= 1 && |vistos| == i - 1
    requires forall k' :: k' in vistos ==> k' < |vs| && NumeradoAbaixo(vs[k'].nome, i)
    requires k < |vs| && vs[k].nome == NomeGerado(i)
    ensures k !in vistos && |vistos + {k}| == i <= |vs|
    ensures forall k' :: k' in vistos + {k} ==> k' < |vs| && NumeradoAbaixo(vs[k'].nome, i + 1)
  {
    NumeroDoNomeGerado(i);
    assert !NumeradoAbaixo(vs[k].nome, i);
    CardinalFaixa(vistos + {k}, |vs|);
  }
}
