/** Pieces, the random tag choice, the exchange of the queue's first three
    pieces with the stack's three (TrocaTres, an involution: TrocaTresInvolucao),
    the generator run of the start-up fill, and what it means for the live
    pieces' ids to be consistent with the id counter. */
module Pecas {

  /** A piece: a tetromino tag and a sequential identifier (struct Peca). */
  datatype Peca = Peca(tipo: char, id: int)

  /** The value of a slot that was never written: the C arrays are globals,
      so they start zero-filled. */
  const PecaZerada := Peca(0 as char, 0)

  /** The tag table of gerarTipoAleatorio, in its order. */
  const Tipos: seq<char> := ['I', 'O', 'T', 'S', 'Z', 'J', 'L']

  /** gerarTipoAleatorio: `sorteio` is the value rand() returned (never
      negative), and the tag is the table entry at `sorteio % 7`. */
  function GerarTipoAleatorio(sorteio: nat): (t: char)
    ensures t in {'I', 'O', 'T', 'S', 'Z', 'J', 'L'}
  {
    Tipos[sorteio % |Tipos|]
  }

  /** Every tag of the table is produced by some draw below 7, so no tag is
      unreachable. */
  lemma TodoTipoSorteavel(t: char)
    requires t in {'I', 'O', 'T', 'S', 'Z', 'J', 'L'}
    ensures exists sorteio: nat :: sorteio < |Tipos| && GerarTipoAleatorio(sorteio) == t
  {
    var k: nat :=
      if t == 'I' then 0 else if t == 'O' then 1 else if t == 'T' then 2
      else if t == 'S' then 3 else if t == 'Z' then 4 else if t == 'J' then 5 else 6;
    assert GerarTipoAleatorio(k) == t;
  }

  /** The ids of a sequence of pieces, in order. */
  function Ids(s: seq<Peca>): seq<int>
  {
    seq(|s|, i requires 0 <= i < |s| => s[i].id)
  }

  /** No id occurs twice among the pieces `s`, and every id lies in
      [1, proximo): it was handed out by the counter before it reached
      `proximo`. */
  ghost predicate IdsConsistentes(s: seq<Peca>, proximo: int)
  {
    && (forall x :: multiset(Ids(s))[x] <= 1)
    && (forall x :: x in multiset(Ids(s)) ==> 1 <= x < proximo)
  }

  lemma IdsConcat(a: seq<Peca>, b: seq<Peca>)
    ensures multiset(Ids(a + b)) == multiset(Ids(a)) + multiset(Ids(b))
  {
    assert Ids(a + b) == Ids(a) + Ids(b);
  }

  lemma IdsUnitario(p: Peca)
    ensures multiset(Ids([p])) == multiset{p.id}
  {
    assert Ids([p]) == [p.id];
  }

  /** Keeping some of the pieces (in any order) and adding at most one piece
      whose id is the counter keeps the ids consistent with the counter
      moved on by one. */
  lemma AcrescentaFresca(s: seq<Peca>, t: seq<Peca>, proximo: int)
    requires 1 <= proximo
    requires IdsConsistentes(s, proximo)
    requires multiset(Ids(t)) <= multiset(Ids(s)) + multiset{proximo}
    ensures IdsConsistentes(t, proximo + 1)
  {
    var ms, mt := multiset(Ids(s)), multiset(Ids(t));
    assert ms[proximo] == 0;
    forall x
      ensures mt[x] <= 1
    {
      assert mt[x] <= ms[x] + multiset{proximo}[x];
    }
    forall x | x in mt
      ensures 1 <= x < proximo + 1
    {
      assert x in ms + multiset{proximo};
    }
  }

  /** Keeping some of the pieces, in any order and without adding any,
      keeps the ids consistent with the same counter. */
  lemma Rearranja(s: seq<Peca>, t: seq<Peca>, proximo: int)
    requires IdsConsistentes(s, proximo)
    requires multiset(Ids(t)) <= multiset(Ids(s))
    ensures IdsConsistentes(t, proximo)
  {
    var ms, mt := multiset(Ids(s)), multiset(Ids(t));
    forall x
      ensures mt[x] <= 1
    {
      assert mt[x] <= ms[x];
    }
    forall x | x in mt
      ensures 1 <= x < proximo
    {
      assert x in ms;
    }
  }

  /** jogarPeca and the start-up fill: a piece carrying the counter's id,
      added to consistent pieces, leaves them consistent with the next counter. */
  lemma IdsAposAcrescentar(s: seq<Peca>, p: Peca, proximo: int)
    requires 1 <= proximo && IdsConsistentes(s, proximo) && p.id == proximo
    ensures IdsConsistentes(s + [p], proximo + 1)
  {
    IdsConcat(s, [p]);
    IdsUnitario(p);
    AcrescentaFresca(s, s + [p], proximo);
  }

  /** jogarPeca: the front leaves, a new piece with the counter's id joins
      the back of the queue; the stack is untouched. */
  lemma IdsAposJogar(q: seq<Peca>, b: seq<Peca>, nova: Peca, proximo: int)
    requires q != [] && 1 <= proximo && nova.id == proximo
    requires IdsConsistentes(q + b, proximo)
    ensures IdsConsistentes(q[1..] + [nova] + b, proximo + 1)
  {
    assert q == [q[0]] + q[1..];
    IdsConcat(q[1..] + [nova], b);
    IdsConcat(q[1..], [nova]);
    IdsConcat(q, b);
    IdsConcat([q[0]], q[1..]);
    IdsUnitario(nova);
    AcrescentaFresca(q + b, q[1..] + [nova] + b, proximo);
  }

  /** enviarFilaParaPilha: the front moves onto the stack, a new piece with
      the counter's id joins the back of the queue. */
  lemma IdsAposEnviar(q: seq<Peca>, b: seq<Peca>, nova: Peca, proximo: int)
    requires q != [] && 1 <= proximo && nova.id == proximo
    requires IdsConsistentes(q + b, proximo)
    ensures IdsConsistentes(q[1..] + [nova] + (b + [q[0]]), proximo + 1)
  {
    assert q == [q[0]] + q[1..];
    IdsConcat(q[1..] + [nova], b + [q[0]]);
    IdsConcat(q[1..], [nova]);
    IdsConcat(b, [q[0]]);
    IdsConcat(q, b);
    IdsConcat([q[0]], q[1..]);
    IdsUnitario(nova);
    AcrescentaFresca(q + b, q[1..] + [nova] + (b + [q[0]]), proximo);
  }

  /** usarPecaReserva: the top of the stack is consumed. */
  lemma IdsAposUsar(q: seq<Peca>, b: seq<Peca>, proximo: int)
    requires b != [] && IdsConsistentes(q + b, proximo)
    ensures IdsConsistentes(q + b[..|b| - 1], proximo)
  {
    var m := |b| - 1;
    assert b == b[..m] + [b[m]];
    IdsConcat(q, b);
    IdsConcat(q, b[..m]);
    IdsConcat(b[..m], [b[m]]);
    Rearranja(q + b, q + b[..m], proximo);
  }

  /** trocarFrenteComTopo: the queue's front and the stack's top trade places. */
  lemma IdsAposTrocarFrente(q: seq<Peca>, b: seq<Peca>, proximo: int)
    requires q != [] && b != [] && IdsConsistentes(q + b, proximo)
    ensures IdsConsistentes([b[|b| - 1]] + q[1..] + (b[..|b| - 1] + [q[0]]), proximo)
  {
    var m := |b| - 1;
    assert q == [q[0]] + q[1..];
    assert b == b[..m] + [b[m]];
    IdsConcat(q, b);
    IdsConcat([q[0]], q[1..]);
    IdsConcat(b[..m], [b[m]]);
    IdsConcat([b[m]] + q[1..], b[..m] + [q[0]]);
    IdsConcat([b[m]], q[1..]);
    IdsConcat(b[..m], [q[0]]);
    IdsUnitario(q[0]);
    IdsUnitario(b[m]);
    Rearranja(q + b, [b[m]] + q[1..] + (b[..m] + [q[0]]), proximo);
  }

  /** The exchange of the queue's first three with a three-piece stack,
      read on the two sequences (front to back, base to top). */
  function TrocaTres(q: seq<Peca>, b: seq<Peca>): (r: (seq<Peca>, seq<Peca>))
    requires |q| >= 3 && |b| == 3
    ensures |r.0| == |q| && |r.1| == 3
  {
    ([b[2], b[1], b[0]] + q[3..], [q[2], q[1], q[0]])
  }

  /** Exchanging three with three twice gives back both sequences. */
  lemma TrocaTresInvolucao(q: seq<Peca>, b: seq<Peca>)
    requires |q| >= 3 && |b| == 3
    ensures TrocaTres(TrocaTres(q, b).0, TrocaTres(q, b).1) == (q, b)
  {
    var (q', b') := TrocaTres(q, b);
    assert q'[3..] == q[3..];
    assert q == [q[0], q[1], q[2]] + q[3..];
    assert [q'[2], q'[1], q'[0]] == [b[0], b[1], b[2]] == b;
    assert TrocaTres(q', b').0 == [q[0], q[1], q[2]] + q[3..];
  }

  lemma IdsTresInvertidos(a: seq<Peca>)
    requires |a| == 3
    ensures multiset(Ids([a[2], a[1], a[0]])) == multiset(Ids(a))
  {
    assert Ids(a) == [a[0].id, a[1].id, a[2].id];
    assert Ids([a[2], a[1], a[0]]) == [a[2].id, a[1].id, a[0].id];
  }

  /** The exchange of three with three rearranges the live pieces. */
  lemma IdsTrocarTresPermuta(q: seq<Peca>, b: seq<Peca>)
    requires |q| >= 3 && |b| == 3
    ensures multiset(Ids(TrocaTres(q, b).0 + TrocaTres(q, b).1)) == multiset(Ids(q + b))
  {
    var t := q[3..];
    assert TrocaTres(q, b).0 + TrocaTres(q, b).1 == [b[2], b[1], b[0]] + t + [q[2], q[1], q[0]];
    assert q == q[..3] + t;
    assert [q[2], q[1], q[0]] == [q[..3][2], q[..3][1], q[..3][0]];
    IdsConcat(q, b);
    IdsConcat(q[..3], t);
    IdsConcat([b[2], b[1], b[0]] + t, [q[2], q[1], q[0]]);
    IdsConcat([b[2], b[1], b[0]], t);
    IdsTresInvertidos(b);
    IdsTresInvertidos(q[..3]);
  }

  /** trocarTresPrimeirosComPilha: the queue's first three and the stack's
      three trade places. */
  lemma IdsAposTrocarTres(q: seq<Peca>, b: seq<Peca>, proximo: int)
    requires |q| >= 3 && |b| == 3 && IdsConsistentes(q + b, proximo)
    ensures IdsConsistentes(TrocaTres(q, b).0 + TrocaTres(q, b).1, proximo)
  {
    IdsTrocarTresPermuta(q, b);
    Rearranja(q + b, TrocaTres(q, b).0 + TrocaTres(q, b).1, proximo);
  }

  /** The pieces a run of the generator produces from counter value `desde`,
      one per draw: their ids are desde, desde + 1, ... */
  function Geradas(sorteios: seq<nat>, desde: int): seq<Peca>
  {
    seq(|sorteios|, i requires 0 <= i < |sorteios| => Peca(GerarTipoAleatorio(sorteios[i]), desde + i))
  }

  lemma GeradasMaisUma(sorteios: seq<nat>, i: nat, desde: int)
    requires i < |sorteios|
    ensures Geradas(sorteios[..i + 1], desde)
         == Geradas(sorteios[..i], desde) + [Peca(GerarTipoAleatorio(sorteios[i]), desde + i)]
  {
  }

  /** A run of the generator from counter value `desde` >= 1 never repeats an
      id, and hands out only ids below the counter it leaves behind. */
  lemma {:induction false} IdsGeradasConsistentes(sorteios: seq<nat>, desde: int)
    requires 1 <= desde
    ensures IdsConsistentes(Geradas(sorteios, desde), desde + |sorteios|)
  {
    if sorteios == [] {
      assert Ids([]) == [];
    } else {
      var n := |sorteios| - 1;
      IdsGeradasConsistentes(sorteios[..n], desde);
      assert sorteios[..n + 1] == sorteios;
      GeradasMaisUma(sorteios, n, desde);
      IdsAposAcrescentar(Geradas(sorteios[..n], desde), Peca(GerarTipoAleatorio(sorteios[n]), desde + n), desde + n);
    }
  }
}
