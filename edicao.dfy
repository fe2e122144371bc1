/** The mutation commands of the editor, as functions from the old vertex list to
    the new one, with what they preserve: well-formedness (no dangling reference)
    and, in undirected mode, the mirror invariant `Espelhado`. */
module Edicao {
  import opened Entidades

  lemma PesosParaAnexo(adj: seq<Adjacente>, e: Adjacente, t: nat)
    ensures PesosPara(adj + [e], t) == PesosPara(adj, t) + (if e.vizinho == t then [e.peso] else [])
  {
    assert (adj + [e])[..|adj|] == adj;
  }

  lemma {:induction false} PesosParaConcat(a: seq<Adjacente>, b: seq<Adjacente>, t: nat)
    ensures PesosPara(a + b, t) == PesosPara(a, t) + PesosPara(b, t)
    decreases |b|
  {
    if b == [] {
      assert a + b == a;
    } else {
      var init := b[..|b| - 1];
      var last := b[|b| - 1];
      PesosParaConcat(a, init, t);
      assert (a + b)[..|a + b| - 1] == a + init;
      var w := if last.vizinho == t then [last.peso] else [];
      assert PesosPara(a + b, t) == PesosPara(a + init, t) + w;
      assert PesosPara(b, t) == PesosPara(init, t) + w;
      assert PesosPara(a, t) + (PesosPara(init, t) + w) == (PesosPara(a, t) + PesosPara(init, t)) + w;
    }
  }

  /** Removing the entry at `i` drops exactly its weight from the weights towards
      its own neighbour and leaves the weights towards every other vertex alone. */
  lemma PesosParaSemIndice(adj: seq<Adjacente>, i: nat, t: nat)
    requires i < |adj|
    ensures PesosPara(adj, t) ==
      PesosPara(adj[..i], t) + (if adj[i].vizinho == t then [adj[i].peso] else []) + PesosPara(adj[i + 1..], t)
    ensures PesosPara(adj[..i] + adj[i + 1..], t) == PesosPara(adj[..i], t) + PesosPara(adj[i + 1..], t)
  {
    assert adj == adj[..i] + [adj[i]] + adj[i + 1..];
    PesosParaConcat(adj[..i] + [adj[i]], adj[i + 1..], t);
    PesosParaAnexo(adj[..i], adj[i], t);
    PesosParaConcat(adj[..i], adj[i + 1..], t);
  }

  // ----- connecting two vertices -----

  /** Connecting `u` to `v` with weight `peso`: `(v, peso)` is appended to `u`'s
      list, and in undirected mode, when `u != v`, `(u, peso)` to `v`'s list. */
  function ComAresta(vs: seq<Vertice>, u: nat, v: nat, peso: int, dirigido: bool): (r: seq<Vertice>)
    requires u < |vs| && v < |vs|
    ensures |r| == |vs|
    ensures forall a :: 0 <= a < |vs| ==>
      r[a].nome == vs[a].nome && vs[a].adjacentes <= r[a].adjacentes
    ensures forall a, b :: 0 <= a < |vs| && 0 <= b < |vs| ==>
      PesosPara(r[a].adjacentes, b) == PesosPara(vs[a].adjacentes, b) +
        (if (a == u && b == v) || (!dirigido && u != v && a == v && b == u) then [peso] else [])
  {
    var r1 := vs[u := vs[u].(adjacentes := vs[u].adjacentes + [Adjacente(v, peso)])];
    var r := if !dirigido && u != v then r1[v := r1[v].(adjacentes := r1[v].adjacentes + [Adjacente(u, peso)])] else r1;
    assert forall b :: PesosPara(r1[u].adjacentes, b) == PesosPara(vs[u].adjacentes, b) + (if b == v then [peso] else []) by {
      forall b { PesosParaAnexo(vs[u].adjacentes, Adjacente(v, peso), b); }
    }
    assert !dirigido && u != v ==> forall b :: PesosPara(r[v].adjacentes, b) == PesosPara(vs[v].adjacentes, b) + (if b == u then [peso] else []) by {
      forall b { PesosParaAnexo(vs[v].adjacentes, Adjacente(u, peso), b); }
    }
    r
  }

  /** A self-loop adds exactly one entry, in both modes. */
  lemma ComLacoUmaEntrada(vs: seq<Vertice>, u: nat, peso: int, dirigido: bool)
    requires u < |vs|
    ensures ComAresta(vs, u, u, peso, dirigido)[u].adjacentes == vs[u].adjacentes + [Adjacente(u, peso)]
    ensures forall a :: 0 <= a < |vs| && a != u ==> ComAresta(vs, u, u, peso, dirigido)[a] == vs[a]
  {
  }

  lemma ComArestaBemFormado(vs: seq<Vertice>, u: nat, v: nat, peso: int, dirigido: bool)
    requires BemFormado(vs) && u < |vs| && v < |vs|
    ensures BemFormado(ComAresta(vs, u, v, peso, dirigido))
  {
  }

  /** In undirected mode, connecting keeps every pair of lists mirrored. */
  lemma ComArestaEspelhado(vs: seq<Vertice>, u: nat, v: nat, peso: int)
    requires Espelhado(vs) && u < |vs| && v < |vs|
    ensures Espelhado(ComAresta(vs, u, v, peso, false))
  {
    var r := ComAresta(vs, u, v, peso, false);
    forall a, b | 0 <= a < |vs| && 0 <= b < |vs| && a != b
      ensures PesosPara(r[a].adjacentes, b) == PesosPara(r[b].adjacentes, a)
    {
    }
  }

  // ----- removing a vertex -----

  /** The entries that do not point to `t`, in order. */
  function SemArcosPara(adj: seq<Adjacente>, t: nat): (r: seq<Adjacente>)
    ensures forall e :: e in r <==> e in adj && e.vizinho != t
    ensures forall t' :: t' != t ==> PesosPara(r, t') == PesosPara(adj, t')
    ensures PesosPara(r, t) == []
  {
    if adj == [] then []
    else
      var init, last := adj[..|adj| - 1], adj[|adj| - 1];
      assert adj == init + [last];
      var r := SemArcosPara(init, t) + (if last.vizinho == t then [] else [last]);
      assert forall t' :: PesosPara(r, t') == PesosPara(SemArcosPara(init, t), t') + (if last.vizinho == t then [] else PesosPara([last], t')) by {
        forall t' { PesosParaConcat(SemArcosPara(init, t), if last.vizinho == t then [] else [last], t'); }
      }
      assert forall t' :: PesosPara(adj, t') == PesosPara(init, t') + PesosPara([last], t') by {
        forall t' { PesosParaConcat(init, [last], t'); }
      }
      r
  }

  /** The old position of the vertex now at position `i`, once `v` is gone. */
  function Antiga(i: nat, v: nat): nat {
    if i < v then i else i + 1
  }

  /** An entry of a graph in which vertex `v` was removed: positions above `v`
      move down by one. */
  function Renumerada(e: Adjacente, v: nat): Adjacente
    requires e.vizinho != v
  {
    Adjacente(if e.vizinho > v then e.vizinho - 1 else e.vizinho, e.peso)
  }

  function Renumera(adj: seq<Adjacente>, v: nat): (r: seq<Adjacente>)
    requires forall e :: e in adj ==> e.vizinho != v
    ensures |r| == |adj| && forall k :: 0 <= k < |adj| ==> r[k] == Renumerada(adj[k], v)
  {
    if adj == [] then [] else Renumera(adj[..|adj| - 1], v) + [Renumerada(adj[|adj| - 1], v)]
  }

  lemma {:induction false} PesosRenumerados(adj: seq<Adjacente>, v: nat, t: nat)
    requires forall e :: e in adj ==> e.vizinho != v
    ensures PesosPara(Renumera(adj, v), t) == PesosPara(adj, Antiga(t, v))
    decreases |adj|
  {
    if adj != [] {
      var init, last := adj[..|adj| - 1], adj[|adj| - 1];
      PesosRenumerados(init, v, t);
      assert Renumera(adj, v) == Renumera(init, v) + [Renumerada(last, v)];
      PesosParaAnexo(Renumera(init, v), Renumerada(last, v), t);
    }
  }

  /** Removing vertex `v`: every entry pointing to `v` is purged from every list,
      then `v` leaves the vertex list; the survivors keep their order. */
  function SemVertice(vs: seq<Vertice>, v: nat): (r: seq<Vertice>)
    requires v < |vs|
    ensures |r| == |vs| - 1
    ensures forall i :: 0 <= i < |r| ==> r[i].nome == vs[Antiga(i, v)].nome
  {
    seq(|vs| - 1, i requires 0 <= i < |vs| - 1 =>
      var w := vs[Antiga(i, v)];
      Vertice(w.nome, Renumera(SemArcosPara(w.adjacentes, v), v)))
  }

  /** Between two surviving vertices the entries are exactly the old ones, with
      the same weights in the same order. */
  lemma SemVerticePreservaPesos(vs: seq<Vertice>, v: nat, a: nat, b: nat)
    requires v < |vs| && a < |vs| - 1
    ensures PesosPara(SemVertice(vs, v)[a].adjacentes, b) == PesosPara(vs[Antiga(a, v)].adjacentes, Antiga(b, v))
  {
    var adj := vs[Antiga(a, v)].adjacentes;
    PesosRenumerados(SemArcosPara(adj, v), v, b);
  }

  /** No dangling reference is left: every entry of the new graph names a vertex
      of it, and entries counted per surviving pair are unchanged. */
  lemma SemVerticeBemFormado(vs: seq<Vertice>, v: nat)
    requires BemFormado(vs) && v < |vs|
    ensures BemFormado(SemVertice(vs, v))
  {
    var r := SemVertice(vs, v);
    forall i, e | 0 <= i < |r| && e in r[i].adjacentes ensures e.vizinho < |r| {
      var adj := SemArcosPara(vs[Antiga(i, v)].adjacentes, v);
      var k :| 0 <= k < |adj| && r[i].adjacentes[k] == e;
      assert adj[k] in adj;
    }
  }

  lemma SemVerticeEspelhado(vs: seq<Vertice>, v: nat)
    requires Espelhado(vs) && v < |vs|
    ensures Espelhado(SemVertice(vs, v))
  {
    var r := SemVertice(vs, v);
    forall a, b | 0 <= a < |r| && 0 <= b < |r| && a != b
      ensures PesosPara(r[a].adjacentes, b) == PesosPara(r[b].adjacentes, a)
    {
      SemVerticePreservaPesos(vs, v, a, b);
      SemVerticePreservaPesos(vs, v, b, a);
    }
  }

  // ----- removing one edge or self-loop -----

  /** Removing the entry at index `i` of `u`'s list. A self-loop loses just that
      entry; for any other entry in undirected mode, every entry of the
      neighbour's list that points back to `u` goes too. */
  function SemEntrada(vs: seq<Vertice>, u: nat, i: nat, dirigido: bool): (r: seq<Vertice>)
    requires u < |vs| && i < |vs[u].adjacentes| && vs[u].adjacentes[i].vizinho < |vs|
    ensures |r| == |vs| && forall a :: 0 <= a < |vs| ==> r[a].nome == vs[a].nome
    ensures r[u].adjacentes == vs[u].adjacentes[..i] + vs[u].adjacentes[i + 1..]
    ensures forall a :: 0 <= a < |vs| && a != u && (dirigido || a != vs[u].adjacentes[i].vizinho) ==> r[a] == vs[a]
    ensures var w := vs[u].adjacentes[i].vizinho;
      !dirigido && w != u ==> r[w].adjacentes == SemArcosPara(vs[w].adjacentes, u)
  {
    var adj := vs[u].adjacentes;
    var w := adj[i].vizinho;
    var r1 := vs[u := vs[u].(adjacentes := adj[..i] + adj[i + 1..])];
    if w != u && !dirigido then r1[w := r1[w].(adjacentes := SemArcosPara(r1[w].adjacentes, u))] else r1
  }

  /** Removing entries never leaves a dangling reference. */
  lemma SemEntradaBemFormado(vs: seq<Vertice>, u: nat, i: nat, dirigido: bool)
    requires BemFormado(vs) && u < |vs| && i < |vs[u].adjacentes|
    ensures BemFormado(SemEntrada(vs, u, i, dirigido))
  {
    var r := SemEntrada(vs, u, i, dirigido);
    var adj := vs[u].adjacentes;
    forall a, e | 0 <= a < |r| && e in r[a].adjacentes ensures e.vizinho < |r| {
      if a == u {
        assert e in adj[..i] || e in adj[i + 1..];
      } else if !dirigido && a == adj[i].vizinho {
        assert e in vs[a].adjacentes;
      }
    }
  }

  /** Removing a self-loop keeps the mirror invariant. */
  lemma SemLacoEspelhado(vs: seq<Vertice>, u: nat, i: nat)
    requires Espelhado(vs) && u < |vs| && i < |vs[u].adjacentes| && vs[u].adjacentes[i].vizinho == u
    ensures Espelhado(SemEntrada(vs, u, i, false))
  {
    var r := SemEntrada(vs, u, i, false);
    forall t | t != u ensures PesosPara(r[u].adjacentes, t) == PesosPara(vs[u].adjacentes, t) {
      PesosParaSemIndice(vs[u].adjacentes, i, t);
    }
  }

  /** Rows `u` and `w` lose their entries to each other and keep the rest, and
      every other row is unchanged: the lists stay mirrored. */
  lemma EspelhoDuasLinhas(vs: seq<Vertice>, r: seq<Vertice>, u: nat, w: nat)
    requires Espelhado(vs) && |r| == |vs| && u < |vs| && w < |vs| && u != w
    requires forall t :: PesosPara(r[u].adjacentes, t) == if t == w then [] else PesosPara(vs[u].adjacentes, t)
    requires forall t :: PesosPara(r[w].adjacentes, t) == if t == u then [] else PesosPara(vs[w].adjacentes, t)
    requires forall a :: 0 <= a < |vs| && a != u && a != w ==> r[a] == vs[a]
    ensures Espelhado(r)
  {
    forall a, b | 0 <= a < |r| && 0 <= b < |r| && a != b
      ensures PesosPara(r[a].adjacentes, b) == PesosPara(r[b].adjacentes, a)
    {
      if (a == u && b == w) || (a == w && b == u) {
        assert PesosPara(r[u].adjacentes, w) == [] == PesosPara(r[w].adjacentes, u);
      } else if a == u || a == w {
        assert PesosPara(r[a].adjacentes, b) == PesosPara(vs[a].adjacentes, b);
        assert r[b] == vs[b];
      } else if b == u || b == w {
        assert PesosPara(r[b].adjacentes, a) == PesosPara(vs[b].adjacentes, a);
        assert r[a] == vs[a];
      } else {
        assert r[a] == vs[a] && r[b] == vs[b];
      }
    }
  }

  /** When the pair holds a single edge, the undirected removal keeps the lists mirrored. */
  lemma SemArestaSimplesEspelhado(vs: seq<Vertice>, u: nat, i: nat)
    requires Espelhado(vs) && u < |vs| && i < |vs[u].adjacentes|
    requires vs[u].adjacentes[i].vizinho < |vs| && vs[u].adjacentes[i].vizinho != u
    requires |PesosPara(vs[u].adjacentes, vs[u].adjacentes[i].vizinho)| == 1
    ensures Espelhado(SemEntrada(vs, u, i, false))
  {
    var r := SemEntrada(vs, u, i, false);
    var adj := vs[u].adjacentes;
    var w := adj[i].vizinho;
    SemIndiceUnico(adj, i);
    assert r[u].adjacentes == adj[..i] + adj[i + 1..];
    EspelhoDuasLinhas(vs, r, u, w);
  }

  /** Dropping the only entry to its neighbour leaves no entry to it and the
      others as they were. */
  lemma SemIndiceUnico(adj: seq<Adjacente>, i: nat)
    requires i < |adj| && |PesosPara(adj, adj[i].vizinho)| == 1
    ensures forall t :: PesosPara(adj[..i] + adj[i + 1..], t) == if t == adj[i].vizinho then [] else PesosPara(adj, t)
  {
    forall t ensures PesosPara(adj[..i] + adj[i + 1..], t) == if t == adj[i].vizinho then [] else PesosPara(adj, t) {
      PesosParaSemIndice(adj, i, t);
    }
  }

  /** With two parallel edges the undirected removal leaves the lists unmirrored:
      the neighbour loses both back-entries while `u` loses one. */
  lemma SemArestaParalelaQuebraEspelho()
    ensures var vs := [Vertice("V1", [Adjacente(1, 1), Adjacente(1, 2)]),
                       Vertice("V2", [Adjacente(0, 1), Adjacente(0, 2)])];
            Espelhado(vs) && !Espelhado(SemEntrada(vs, 0, 0, false))
  {
    var a0, a1 := [Adjacente(1, 1), Adjacente(1, 2)], [Adjacente(0, 1), Adjacente(0, 2)];
    var vs := [Vertice("V1", a0), Vertice("V2", a1)];
    assert a0 == [Adjacente(1, 1)] + [Adjacente(1, 2)] && a1 == [Adjacente(0, 1)] + [Adjacente(0, 2)];
    PesosParaConcat([Adjacente(1, 1)], [Adjacente(1, 2)], 1);
    PesosParaConcat([Adjacente(0, 1)], [Adjacente(0, 2)], 0);
    assert PesosPara(a0, 1) == PesosPara(a1, 0);
    forall u, v | 0 <= u < 2 && 0 <= v < 2 && u != v
      ensures PesosPara(vs[u].adjacentes, v) == PesosPara(vs[v].adjacentes, u)
    {
      if u == 1 { assert v == 0; } else { assert v == 1; }
    }
    var r := SemEntrada(vs, 0, 0, false);
    assert r[0].adjacentes == [Adjacente(1, 2)];
    assert r[1].adjacentes == SemArcosPara(a1, 0);
    assert PesosPara(r[0].adjacentes, 1) == [2];
    assert PesosPara(r[1].adjacentes, 0) == [];
  }
}
