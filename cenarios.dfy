/** Client code of the game object: the end-to-end run from start-up, and the
    laws that follow from the operations' contracts alone. */
module Cenarios {
  import opened Wrappers
  import opened Pecas
  import opened FilaCircular
  import opened Tetris

  /** Start-up from the program's initial state: the queue holds the ids
      1..5 front to back, one piece per draw, and the stack is empty. */
  method Inicio(sorteios: seq<nat>) returns (j: Jogo, ids: seq<int>)
    requires |sorteios| == FilaCap
    ensures fresh(j) && j.Valid() && fresh(j.fila) && fresh(j.pilha)
    ensures ids == Ids(j.FilaSeq()) == [1, 2, 3, 4, 5]
    ensures j.FilaSeq() == Geradas(sorteios, 1)
    ensures j.PilhaSeq() == [] && j.proximoId == 6
  {
    j := new Jogo();
    j.InicializarJogo(sorteios);
    ids := Ids(j.FilaSeq());
    assert ids == [1, 2, 3, 4, 5] by {
      assert ids[0] == 1 && ids[1] == 2 && ids[2] == 3 && ids[3] == 4 && ids[4] == 5;
    }
  }

  /** From the start-up state, Reserve leaves the queue holding ids 2..6
      and the stack [1]; Use Reserve then hands back piece 1 and empties
      the stack. */
  method ReservaUso(j: Jogo, sorteio: nat)
    returns (filaApos: seq<int>, pilhaApos: seq<int>, usada: Option<Peca>)
    requires j.Valid()
    requires Ids(j.FilaSeq()) == [1, 2, 3, 4, 5] && j.PilhaSeq() == [] && j.proximoId == 6
    modifies j`filaHead, j`filaCount, j`pilhaTop, j`proximoId, j.fila, j.pilha
    ensures j.Valid()
    ensures filaApos == [2, 3, 4, 5, 6] && pilhaApos == [1]
    ensures usada == Some(old(j.FilaSeq())[0]) && usada.value.id == 1
    ensures j.PilhaSeq() == []
  {
    ghost var q := j.FilaSeq();
    assert Ids(q)[0] == 1;
    ghost var nova := Peca(GerarTipoAleatorio(sorteio), 6);
    var r := j.EnviarFilaParaPilha(sorteio);
    assert r == Sucesso && j.FilaSeq() == q[1..] + [nova] && j.PilhaSeq() == [q[0]];
    assert Ids(q[1..] + [nova]) == Ids(q)[1..] + [6];
    filaApos := Ids(j.FilaSeq());
    pilhaApos := Ids(j.PilhaSeq());
    usada := j.UsarPecaReserva();
  }

  /** The whole run: start-up, Reserve, Use Reserve. */
  method InicioReservaUso(sorteios: seq<nat>, sorteio: nat)
    returns (inicial: seq<int>, filaApos: seq<int>, pilhaApos: seq<int>, usada: Option<Peca>)
    requires |sorteios| == FilaCap
    ensures inicial == [1, 2, 3, 4, 5]
    ensures filaApos == [2, 3, 4, 5, 6] && pilhaApos == [1]
    ensures usada == Some(Peca(GerarTipoAleatorio(sorteios[0]), 1))
  {
    var j;
    j, inicial := Inicio(sorteios);
    filaApos, pilhaApos, usada := ReservaUso(j, sorteio);
  }

  /** LIFO: a piece pushed onto a stack with room is the piece popped next,
      and the stack is back as it was. */
  method PushPop(j: Jogo, p: Peca) returns (ok: bool, r: Option<Peca>)
    requires j.Valid()
    modifies j`pilhaTop, j.pilha
    ensures j.Valid()
    ensures ok <==> old(|j.PilhaSeq()|) < PilhaCap
    ensures ok ==> r == Some(p) && j.PilhaSeq() == old(j.PilhaSeq())
  {
    ok := j.PilhaPush(p);
    r := j.PilhaPop();
  }

  /** FIFO: after an enqueue, the dequeue returns the piece that was at the
      front before it, or the new piece if the queue was empty. */
  method EnqueueDequeue(j: Jogo, p: Peca) returns (ok: bool, r: Option<Peca>)
    requires j.Valid()
    modifies j`filaHead, j`filaCount, j.fila
    ensures j.Valid()
    ensures ok <==> old(|j.FilaSeq()|) < FilaCap
    ensures ok ==> r == Some(if old(j.FilaSeq()) == [] then p else old(j.FilaSeq())[0])
    ensures ok ==> j.FilaSeq() == (old(j.FilaSeq()) + [p])[1..]
  {
    ok := j.FilaEnqueue(p);
    r := j.FilaDequeue();
  }

  /** Reserve then Use Reserve: the piece used is the one that was at the
      front of the queue, and the stack is back as it was. */
  method ReservarEUsar(j: Jogo, sorteio: nat) returns (r: Resultado, usada: Option<Peca>)
    requires j.Valid()
    modifies j`filaHead, j`filaCount, j`pilhaTop, j`proximoId, j.fila, j.pilha
    ensures j.Valid()
    ensures r == Sucesso <==> old(j.FilaSeq()) != [] && old(|j.PilhaSeq()|) < PilhaCap
    ensures r == Sucesso ==> usada == Some(old(j.FilaSeq())[0]) && j.PilhaSeq() == old(j.PilhaSeq())
  {
    r := j.EnviarFilaParaPilha(sorteio);
    usada := j.UsarPecaReserva();
  }

  /** Swapping the front with the top twice restores both containers. */
  method TrocarFrenteDuasVezes(j: Jogo) returns (r1: Resultado, r2: Resultado)
    requires j.Valid()
    modifies j.fila, j.pilha
    ensures j.Valid()
    ensures r1 == r2
    ensures j.FilaSeq() == old(j.FilaSeq()) && j.PilhaSeq() == old(j.PilhaSeq())
  {
    r1 := j.TrocarFrenteComTopo();
    r2 := j.TrocarFrenteComTopo();
  }

  /** Swapping three with three twice restores both containers. */
  method TrocarTresDuasVezes(j: Jogo) returns (r1: Resultado, r2: Resultado)
    requires j.Valid()
    modifies j.fila, j.pilha
    ensures j.Valid()
    ensures r1 == r2
    ensures j.FilaSeq() == old(j.FilaSeq()) && j.PilhaSeq() == old(j.PilhaSeq())
  {
    ghost var q, b := j.FilaSeq(), j.PilhaSeq();
    r1 := j.TrocarTresPrimeirosComPilha();
    r2 := j.TrocarTresPrimeirosComPilha();
    if r1 == Sucesso {
      TrocaTresInvolucao(q, b);
    }
  }
}
