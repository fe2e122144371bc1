# Graph engine model

This project models the graph engine of a small graph editor. A graph is an ordered list of vertices and a flag that says whether it is directed. Each vertex has a name and its own ordered adjacency list of `(neighbour, weight)` entries. Duplicate entries and self-loops are allowed.

The model covers:

- the editing commands, lifted out of the window's event handlers:
  - naming and adding a vertex;
  - connecting two vertices (mirrored when undirected);
  - removing a vertex with every entry that points to it;
  - removing one entry by index;
  - clearing the graph;
  - choosing a vertex with entries;
- the algorithms and views of the graph:
  - the adjacency test and the text listing;
  - Prim's spanning tree;
  - Dijkstra's shortest-path tree and its list of unreachable vertices;
  - the breadth-first and depth-first search trees;
  - Roy's strongly-connected-component search and its closing message;
  - the adjacency and incidence matrices.

## How the model is built

- **Vertices and entries.** A vertex is its position in the vertex list. An entry is `Adjacente(vizinho, peso)`, where `vizinho` is the position of the neighbour.
- **Edges.** The edges the algorithms return are values of the datatype `Aresta(origem, destino, peso, nome)`, defined in module `Entidades`.
- **The graph object.** `Grafos.Grafo` is a class with the fields `vertices: seq<Vertice>` and `dirigido`. Its editing methods reassign `vertices`. Each one is proved against a function of the old list in module `Edicao`, and the invariants that function keeps are proved as lemmas:
  - `BemFormado`: every entry names a vertex;
  - `Espelhado`: in undirected mode, `u` has the same weights towards `v` as `v` has towards `u`.
- **The algorithms.** Each loop of the source is a `method` with a `while` or `for` loop. The recursive local functions are recursive methods.
- **Specifications.** Each method is proved against a specification function or predicate in its own module: `Prim`, `Dijkstra`, `Buscas` and `Caminhos`, `Componentes` (Roy), `Matrizes` and `Consultas`. The properties the source promises are lemmas about those specifications.
- **Walks and reachability.** A walk is a sequence of entries followed from a vertex (`Caminhos.EhPasseio`). `Alcanca(vs, s, t)` says that some walk leads from `s` to `t`.

## Model

| member | source | states |
|---|---|---|
| Grafos.Grafo.constructor | Grafos/Grafo.cs:13-14 | a new graph has no vertices and the given direction |
| Grafos.Grafo.LimparGrafo | Grafos/MainWindow.xaml.cs:1067 | clearing leaves the vertex list empty and the direction unchanged |
| Grafos.Grafo.GerarNomeVertice | Grafos/MainWindow.xaml.cs:135-141 | the result is `V<i>` for some i ≥ 1, no vertex has that exact name, and `V1` .. `V<i-1>` are all in use, so `i` is the least free number |
| Consultas.NumeroDoNomeGerado | Grafos/MainWindow.xaml.cs:135-141 | a generated name is `V` followed by digits that read back as its number, so different numbers give different names |
| Texto.NatParaTextoInjetiva | Grafos/MainWindow.xaml.cs:138-140 | the decimal text of a number determines the number |
| Grafos.Grafo.AdicionarVertice | Grafos/MainWindow.xaml.cs:614-621 | the new vertex, with no entries and the name `V<i>` for the least `i` whose name no vertex uses, is appended at the end; the others are unchanged; well-formedness and the mirror invariant are kept |
| Grafos.Grafo.Conectar | Grafos/MainWindow.xaml.cs:577-597 | the new list is `ComAresta` of the old one; well-formedness is kept, and so is the mirror invariant in undirected mode |
| Edicao.ComAresta | Grafos/MainWindow.xaml.cs:577-597 | names are unchanged and every list only grows; `u`'s weights towards `v` gain `peso`; when undirected and `u ≠ v`, `v`'s weights towards `u` gain it too; no other weight list changes |
| Edicao.ComLacoUmaEntrada | Grafos/MainWindow.xaml.cs:577-580 | a self-loop appends exactly one entry `(u, peso)` to `u`'s list, in both modes, and leaves every other vertex unchanged |
| Edicao.ComArestaBemFormado | Grafos/MainWindow.xaml.cs:577-597 | connecting two vertices of the graph keeps every entry inside the graph |
| Edicao.ComArestaEspelhado | Grafos/MainWindow.xaml.cs:577-590 | undirected insertion keeps the mirror invariant: the weights from `u` to `v` stay those from `v` to `u` |
| Grafos.Grafo.RemoverVertice | Grafos/MainWindow.xaml.cs:643-646 | the new list is `SemVertice` of the old one; well-formedness and the mirror invariant are kept |
| Edicao.SemArcosPara | Grafos/MainWindow.xaml.cs:644 | `RemoveAll`: the surviving entries are exactly those not pointing to `t`; the entries towards every other vertex keep their weights in order; none points to `t` |
| Edicao.SemVertice | Grafos/MainWindow.xaml.cs:643-646 | one vertex fewer, and every other vertex keeps its name, shifted down past `v` |
| Edicao.SemVerticePreservaPesos | Grafos/MainWindow.xaml.cs:643-646 | the weights from each surviving vertex to each surviving vertex are exactly those of the old graph, in order |
| Edicao.SemVerticeBemFormado | Grafos/MainWindow.xaml.cs:643-646 | no entry is left dangling after a removal |
| Edicao.SemVerticeEspelhado | Grafos/MainWindow.xaml.cs:643-646 | removing a vertex keeps the mirror invariant |
| Grafos.Grafo.RemoverEntrada | Grafos/MainWindow.xaml.cs:670-683 | the new list is `SemEntrada` of the old one; well-formedness is kept; the mirror invariant is kept when the entry is a self-loop or the only entry between its two ends |
| Edicao.SemEntrada | Grafos/MainWindow.xaml.cs:670-683 | `u` loses exactly entry `i`; when undirected and not a loop, the neighbour loses every entry back to `u`; no other vertex changes |
| Edicao.SemEntradaBemFormado | Grafos/MainWindow.xaml.cs:670-683 | removing an entry keeps every entry inside the graph |
| Edicao.SemLacoEspelhado | Grafos/MainWindow.xaml.cs:670 | removing a self-loop keeps the mirror invariant |
| Edicao.SemArestaSimplesEspelhado | Grafos/MainWindow.xaml.cs:678-683 | removing the only edge between two vertices keeps the mirror invariant |
| Edicao.SemArestaParalelaQuebraEspelho | Grafos/MainWindow.xaml.cs:683 | with two parallel undirected edges, removing one entry removes both back-entries, and the mirror invariant breaks |
| Grafos.Grafo.EscolherVerticeValido | Grafos/MainWindow.xaml.cs:1049-1057 | none exactly when every list is empty; otherwise the first vertex in list order with a non-empty list |
| Consultas.Procura | Grafos/Grafo.cs:53-54 | `FirstOrDefault` by name ignoring case: none exactly when no name matches; otherwise a matching vertex with no match before it |
| Texto.Apara | Grafos/Grafo.cs:49-50 | the trimmed text is a slice with blank text on both sides, it neither starts nor ends with white space, and it is empty exactly when the input is blank |
| Texto.IguaisSemCaixaEquivalencia | Grafos/Grafo.cs:53-59 | comparison ignoring case is reflexive, symmetric and transitive |
| Grafos.Grafo.SaoAdjacentes | Grafos/Grafo.cs:43-63 | a positive answer implies both names are non-blank and that some vertex carrying the first trimmed name has an entry to a vertex carrying the second |
| Grafos.Grafo.SaoAdjacentesExato | Grafos/Grafo.cs:43-63 | with names unique ignoring case, the answer is true exactly when both names are non-blank and the first vertex has an entry to the second |
| Grafos.Grafo.EntradaEspelhada | Grafos/Grafo.cs:58-60 | in an undirected graph that keeps the mirror invariant, an entry between two named vertices has an entry back |
| Grafos.Grafo.SaoAdjacentesSimetrico | Grafos/Grafo.cs:43-63 | with unique names and the mirror invariant, the one-way test gives the same answer in both directions |
| Grafos.Grafo.ListarAdjacencias | Grafos/Grafo.cs:20-40 | the text is `Listagem`: the vertices' lines, in list order |
| Grafos.Grafo.EscreverEntradas | Grafos/Grafo.cs:32-35 | the entries' texts `name(weight) `, in list order |
| Consultas.Entradas | Grafos/Grafo.cs:32-35 | a non-empty entry text ends in a space |
| Consultas.LinhaIsolada | Grafos/Grafo.cs:25-37 | a line reads `(isolado)` exactly when the vertex has no entries |
| Consultas.ListagemUmaLinhaPorVertice | Grafos/Grafo.cs:20-40 | when no name holds a line break, the listing has exactly one line break per vertex |
| Grafos.Grafo.GerarArvoreGeradoraMinimaPrim | Grafos/Grafo.cs:74-137 | empty for an empty graph; otherwise: every step picks as the engine does; the loop stops only when all vertices are visited or no edge crosses; each edge joins a visited vertex to a new one along a real entry; fewer edges than vertices; the visited set is exactly what the start reaches; one edge per reachable vertex other than the start, with distinct destinations |
| Grafos.Grafo.ArestasIniciais | Grafos/Grafo.cs:93-103 | the first frontier is `Semente`: the start's entries as edges |
| Grafos.Grafo.Expandir | Grafos/Grafo.cs:121-134 | the frontier grows by `Expansao`: the new vertex's entries to unvisited vertices |
| Prim.MenorSomaAte | Grafos/Grafo.cs:86-88 | the start vertex has the least weight sum, and every vertex before it has a strictly greater sum |
| Prim.InicialPrim | Grafos/Grafo.cs:86-88 | the start vertex is a vertex of the graph |
| Prim.Semente | Grafos/Grafo.cs:93-103 | one edge per entry of the start vertex, in order, labelled `start-neighbour` |
| Prim.Expansao | Grafos/Grafo.cs:121-134 | every added edge leaves the new vertex along one of its entries, and every entry to an unvisited vertex adds one |
| Prim.MenorCruzando | Grafos/Grafo.cs:109-113 | none exactly when no frontier edge crosses; otherwise a crossing edge of least weight, with every crossing edge before it strictly heavier (stable sort) |
| Prim.PrimCorte | Grafos/Grafo.cs:106-118 | cut property: step `k`'s edge weighs no more than any entry leaving the vertices visited before it |
| Prim.EscolhaValida | Grafos/Grafo.cs:109-118 | a chosen edge has exactly its origin visited and follows a real entry |
| Prim.PassosTodos | Grafos/Grafo.cs:106-135 | a run built step by step satisfies the step property at every index |
| Prim.PrimCresce | Grafos/Grafo.cs:106-135 | the chosen edges form a tree grown from the start along real entries |
| Prim.PrimFechado | Grafos/Grafo.cs:113 | when no frontier edge crosses, no entry leaves the visited set |
| Prim.PrimAbrange | Grafos/Grafo.cs:106-135 | at the end, the visited set is exactly what the start reaches, and there are fewer edges than vertices |
| Grafos.Grafo.GerarArvoreCaminhosMinimos | Grafos/Grafo.cs:144-197 | the tree is `ArvoreDeCaminhos` (with non-negative weights: rooted at the origin and ordered by the processing order, hence acyclic); the unreachable list holds exactly the vertices other than the origin that it does not reach, in increasing order |
| Grafos.Grafo.ResultadoCaminhos | Grafos/Grafo.cs:177-196 | from the state at the end of the main loop, both outputs with the same guarantees as the whole method |
| Grafos.Grafo.DistanciasIniciais | Grafos/Grafo.cs:150-153 | the origin at distance 0 and every other vertex at infinity |
| Grafos.Grafo.Relaxar | Grafos/Grafo.cs:165-174 | after relaxing every entry of the current vertex: distances only decrease; every vertex whose distance changed now has the current vertex as predecessor; every other vertex keeps its distance and predecessor; the key order only grows, by new keys; with non-negative weights only pending vertices change, and each new distance is the least of the old one and the current distance plus the weight of an entry to it |
| Dijkstra.EfeitoMelhora | Grafos/Grafo.cs:169-172 | one improvement keeps the round's effect: lower distance, predecessor set to the current vertex, a new key appended at most |
| Dijkstra.RodadaMinima | Grafos/Grafo.cs:165-174 | with non-negative weights, a finished round leaves every entry of the current vertex relaxed, and every changed distance equals the current distance plus the weight of an entry to that vertex |
| Dijkstra.FilaRodada | Grafos/Grafo.cs:165-175 | every predecessor recorded in a round is already processed, so the processing order remains a witness that predecessors come first |
| Grafos.Grafo.MontarArvore | Grafos/Grafo.cs:178-191 | one edge per predecessor key, in insertion order, along the first entry from the predecessor to the key, labelled `u->v` |
| Dijkstra.PrimeiroMinimo | Grafos/Grafo.cs:158 | none exactly when nothing is pending; otherwise a pending vertex of least distance with every pending vertex before it strictly farther |
| Dijkstra.PrimeiroPeso | Grafos/Grafo.cs:183 | the weight of the first entry to `v` |
| Dijkstra.ListaInalcancaveis | Grafos/Grafo.cs:194 | the vertices at infinity other than the origin, exactly, in increasing order |
| Dijkstra.CotaInferior | Grafos/Grafo.cs:155-175 | once no entry can be relaxed, every walk from the origin ends at a finite distance no greater than its weight |
| Dijkstra.DistanciaMinima | Grafos/Grafo.cs:155-175 | an infinite distance means unreachable; a finite one is at most the weight of every walk to the vertex |
| Dijkstra.DistanciaEhMinima | Grafos/Grafo.cs:155-175 | a realised finite distance is the weight of a shortest walk |
| Dijkstra.ArestaMinimaDe | Grafos/Grafo.cs:165-174 | an entry that accounts for a distance extends a shortest walk into a shortest walk |
| Dijkstra.DijkstraAlcance | Grafos/Grafo.cs:155-175 | at the end, a distance is finite exactly when the origin reaches the vertex |
| Dijkstra.FimRelaxado | Grafos/Grafo.cs:155-175 | with non-negative weights, no entry can still improve a distance at the end |
| Dijkstra.DijkstraMinimos | Grafos/Grafo.cs:155-175 | with non-negative weights, the origin has no predecessor and every predecessor entry lies on a shortest walk |
| Dijkstra.DijkstraArvore | Grafos/Grafo.cs:177-191 | the tree built from the predecessors is `ArvoreDeCaminhos`: one edge into each vertex other than the origin that the origin reaches and into no other, along the first entry, labelled `u->v`; every edge's origin is the origin or the destination of another edge; with non-negative weights every edge lies on a shortest walk and each edge's origin comes before its destination in the processing order |
| Dijkstra.ArvoreOrigens | Grafos/Grafo.cs:177-191 | every tree edge starts at the origin or at the destination of another tree edge |
| Dijkstra.ArvoreEnraizada | Grafos/Grafo.cs:155-191 | with non-negative weights, every tree edge's origin is processed before its destination |
| Dijkstra.CaminhosEnraizados | Grafos/Grafo.cs:177-191 | with non-negative weights, every tree edge is the last of a chain of tree edges starting at the origin, and no chain of tree edges closes a cycle |
| Dijkstra.Remonta | Grafos/Grafo.cs:177-191 | following predecessors back from any tree edge reaches the origin |
| Dijkstra.CadeiaSobe | Grafos/Grafo.cs:177-191 | along a chain of tree edges the processing position strictly increases |
| Dijkstra.EnraizadaSemCiclo | Grafos/Grafo.cs:177-191 | a chain of tree edges never ends where it began |
| Dijkstra.DijkstraConclui | Grafos/Grafo.cs:177-196 | both outputs: the tree is `ArvoreDeCaminhos` (rooted and acyclic with non-negative weights), and the unreachable list is exact and increasing |
| Grafos.Grafo.BuscaLargura | Grafos/Grafo.cs:204-239 | a tree grown from the origin along real entries labelled `origin-destination`; its vertices are exactly those the origin reaches; one edge fewer than that set; destinations distinct and never the origin |
| Buscas.LarguraFim | Grafos/Grafo.cs:213-236 | when the queue empties, the tree spans exactly what the origin reaches |
| Grafos.Grafo.BuscaProfundidade | Grafos/Grafo.cs:245-276 | the same tree-shape facts as the breadth-first search, for the recursive search |
| Grafos.Grafo.Dfs | Grafos/Grafo.cs:251-272 | a call visits its vertex and finishes every vertex it visits: every entry of those leads to a visited vertex |
| Buscas.ProfundidadeAbrange | Grafos/Grafo.cs:245-276 | the outermost call's tree spans exactly what the origin reaches |
| Caminhos.ArvoreAbrange | Grafos/Grafo.cs:204-276 | a search tree whose visited vertices are all finished spans exactly what the root reaches |
| Caminhos.FormaDeArvore | Grafos/Grafo.cs:204-276 | a tree grown from `s` that spans what `s` reaches has one edge fewer than that set, and its destinations are distinct and never `s` |
| Caminhos.AlcancaTransitivo | Grafos/Grafo.cs:289-342 | reachability is transitive |
| Grafos.Grafo.Roy | Grafos/Grafo.cs:283-397 | the rounds split the vertices into their strongly connected components, each in increasing order of its first vertex; the result lists the recorded components' edges; the message is `MensagemRoy` |
| Grafos.Grafo.AlgoritmoRoy | Grafos/Grafo.cs:289-382 | each round removes one whole component from the remaining list; the recorded components and the message follow the rounds |
| Grafos.Grafo.EncontrarSucessores | Grafos/Grafo.cs:300-314 | the search adds the vertex and finishes everything it reaches, without repeats |
| Grafos.Grafo.EncontrarAntecessores | Grafos/Grafo.cs:317-333 | the search adds the vertex and every vertex of the remaining list with an entry into the set found so far |
| Grafos.Grafo.CriarArestasComponente | Grafos/Grafo.cs:345-365 | the edges are `ArestasDaComponente` |
| Grafos.Grafo.ArestasDoVertice | Grafos/Grafo.cs:347-364 | one vertex's entries into the component, filtered and labelled as the source does |
| Componentes.SucessoresAbrange | Grafos/Grafo.cs:300-336 | the successor list starts at `W[0]`, has no repeats, and holds exactly what `W[0]` reaches |
| Componentes.AntecessoresAbrange | Grafos/Grafo.cs:317-339 | the predecessor set holds `W[0]`, lies in `W`, reaches `W[0]`, and is closed under entries within `W` |
| Componentes.Intersecta | Grafos/Grafo.cs:342 | `Intersect`: exactly the elements of the first list that are in the set, in the list's order |
| Componentes.Exceto | Grafos/Grafo.cs:380 | `Except`: exactly the elements of the list not in the component |
| Componentes.Sequencia | Grafos/Grafo.cs:385 | the copy of the vertex list: the positions 0 .. n-1 in order |
| Componentes.ArestasDaComponente | Grafos/Grafo.cs:345-365 | an edge is listed exactly when it follows an entry between two component vertices, passes the undirected name filter and carries the `->` label (directed) or `-` label (undirected) |
| Componentes.RegistradaSingular | Grafos/Grafo.cs:368 | a one-vertex component is recorded exactly when the vertex has a self-loop |
| Componentes.NaoRegistrada | Grafos/Grafo.cs:368 | a component is not recorded exactly when it is a single vertex, alone in its component, without a self-loop |
| Componentes.RoyRegistra | Grafos/Grafo.cs:367-377 | a round appends its edges exactly when the component has more than one vertex or an edge; the connected message is set when that component holds every vertex |
| Componentes.CobreAnexa | Grafos/Grafo.cs:368-374 | the connected message is set after a round exactly when it was set before or this round's component is recorded and holds every vertex |
| Componentes.RoyMensagem | Grafos/Grafo.cs:390-394 | the closing check replaces the message by the isolated-vertices one when nothing was recorded and there are vertices |
| Componentes.MensagemConexa | Grafos/Grafo.cs:371-374 | the connected message is reported exactly when every vertex reaches every other (for a single vertex, given a self-loop) |
| Componentes.ComponenteTotal | Grafos/Grafo.cs:371 | a component holding every vertex makes the graph strongly connected |
| Componentes.MensagemIsolados | Grafos/Grafo.cs:390-394 | nothing is recorded exactly when every vertex is alone in its component and has no self-loop |
| Componentes.IsoladosComArco | Grafos/Grafo.cs:390-394 | for the directed graph `V1 -> V2` the message is still "Grafo contém apenas vértices isolados (sem arestas)" |
| Grafos.Grafo.GerarMatrizAdjacencia | Grafos/Grafo.cs:403-426 | an n×n matrix whose cell `(i, j)` is `PesoMatriz` of row `i`'s list for column `j` |
| Matrizes.PesoMatrizUltimo | Grafos/Grafo.cs:416-423 | a cell is 0 when the row has no entry to the column; otherwise it is the weight of an entry to the column with no later entry to it |
| Matrizes.MatrizSimetrica | Grafos/Grafo.cs:403-426 | under the mirror invariant the adjacency matrix is symmetric |
| Grafos.Grafo.ListarArestasIncidencia | Grafos/Grafo.cs:434-451 | the edge list is `ArestasIncidencia` |
| Grafos.ArestasIncidenciaDoVertice | Grafos/Grafo.cs:438-450 | one vertex's contribution: its entries that pass the filter, in order, labelled `origin-destination` |
| Matrizes.ArestasIncidenciaMembro | Grafos/Grafo.cs:434-451 | an edge is listed exactly when it stands for an entry, passes the filter (directed, or origin name strictly first) and carries the label |
| Matrizes.IncidenciaNaoDirigida | Grafos/Grafo.cs:440 | undirected mode lists no self-loop and never both directions of an entry |
| Texto.MenorTotal | Grafos/Grafo.cs:352 | the name order is irreflexive and total on distinct names |
| Grafos.Grafo.GerarMatrizIncidencia | Grafos/Grafo.cs:432-473 | the edge list is `ArestasIncidencia`, and the matrix is `|V|` by that many columns with cell `(i, j)` equal to `ValorIncidencia` |
| Matrizes.SomaColunaIncidencia | Grafos/Grafo.cs:455-470 | a directed arc's column sums to 0, a directed self-loop's to -1 (the -1 is written last), an undirected edge's to 2 |

## Left out

- Drawing, the message log and the mouse hit-tests are floating-point user interface code. The edge-removal command therefore takes a vertex and an entry index.
- The weight dialog, with its default of 1, is UI input. Weights arrive as `int` parameters.
- The text formatting of the matrices and components in the click handlers, and the direction toggle, are display code.
- Welsh–Powell colouring is called by the window, but its bodies are not part of this model.
- Vertex identity is modelled by position rather than by object reference. Removing a vertex renumbers the vertices after it, and that is where "purging every reference" appears in the model. Names are never null.
- Name comparison:
  - culture-aware `string.CompareTo` is an ordinal, character-by-character order (`Texto.Menor`);
  - `OrdinalIgnoreCase` folds only the ASCII letters;
  - `Trim` and `IsNullOrWhiteSpace` use .NET's list of white-space characters.
- `HashSet` and `Dictionary` enumeration is assumed to follow insertion order. Dijkstra's `OrderBy(...).First()` therefore takes the first pending vertex of least distance in vertex order. The tree is built from the predecessor keys in their insertion order.
- `Except` also removes duplicates. This is not modelled: the list it applies to never holds duplicates.
- `Grafos.Grafo.GerarArvoreCaminhosMinimos`:
  - `int.MaxValue` as infinity is an explicit `Infinita` value;
  - `dist + peso` is unbounded, so the overflow of a 32-bit sum is not modelled;
  - the shortest-walk facts are proved for non-negative weights only.
- `Grafos.Grafo.Relaxar`: with negative weights the contract does not give the exact new distances. The source re-reads the current vertex's distance for each entry, so a negative self-loop changes what later entries see. The order of the keys a round adds to the predecessor map is not stated; only that they are new keys appended at the end.
- `Grafos.Grafo.GerarArvoreGeradoraMinimaPrim`: the start vertex is chosen with a checked LINQ `Sum` of entry weights (Grafos/Grafo.cs:87). That sum throws `OverflowException` when it leaves the 32-bit range. The model's sum is unbounded, so the exception path is not modelled.
- `Prim.MenorSomaAte`: the weight sums are unbounded integers. A vertex whose 32-bit sum would overflow, and thus make the source throw, is compared by its exact sum instead.
- `Grafos.Grafo.GerarArvoreGeradoraMinimaPrim`: global minimality of the total weight is not stated. The contract gives the tree shape and the cut property of every step.
- `Grafos.Grafo.BuscaLargura` and `Grafos.Grafo.BuscaProfundidade`: the visiting order is given only through the step lemmas, not in the contracts. The contracts state the tree shape, the labels and the reachable set.
- `Grafos.Grafo.SaoAdjacentes`: its own contract states only the implication from a positive answer. The exact characterisation, `Grafos.Grafo.SaoAdjacentesExato`, assumes names that are unique ignoring case. With duplicate names, the first vertex found for each name decides.
- The recursive local functions of the depth-first search and of Roy become recursive methods of the class. The sets they capture are passed in and returned.

## Behaviour of the source that the model keeps

- **Prim's start vertex.** Prim starts from the first vertex with the least sum of entry weights, not from vertex 0.
- **Prim's labels.** Every edge Prim adds later is labelled with the start vertex's name and the destination's name, not with its real origin.
- **The adjacency test.** `SaoAdjacentes` looks only at the first vertex's list. It also accepts an entry whose neighbour merely has the second vertex's name.
- **Undirected edge removal.** Removing an undirected edge takes away every entry of the neighbour that points back. With parallel edges the mirror invariant breaks (`Edicao.SemArestaParalelaQuebraEspelho`).
- **Dijkstra's tree weights.** Each tree edge has the weight of the first entry from the predecessor to the vertex. That need not be the entry that relaxed the distance.
- **The incidence matrix.**
  - The undirected view drops self-loops and entries between vertices with the same name.
  - In a directed self-loop's column, the -1 overwrites the +1.
- **The adjacency matrix.** Each cell keeps the last entry's weight. A weight of 0 cannot be told apart from no entry.
- **Roy's closing message.** The message looks only at whether any component is recorded. A directed acyclic graph with edges is therefore reported as "only isolated vertices, without edges" (`Componentes.IsoladosComArco`).
