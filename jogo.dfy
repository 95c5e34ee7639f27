/** The state of tetris.c (its global queue, stack and id counter) as one
    object. Each C function except `gerarTipoAleatorio` (Pecas.GerarTipoAleatorio),
    the display functions and `main` is a member of it: the four empty/full
    queries are predicates, the rest are methods that update the arrays in place. */
module Tetris {
  import opened Wrappers
  import opened Pecas
  import opened FilaCircular

  /** PILHA_CAP */
  const PilhaCap := 3

  /** What an action reports: success, or which of its checks failed first. */
  datatype Resultado =
    | Sucesso
    | FalhaFilaVazia            // the queue holds no piece
    | FalhaPilhaVazia           // the stack holds no piece
    | FalhaPilhaCheia           // the stack already holds 3 pieces
    | FalhaPilhaSemTres         // the stack does not hold exactly 3 pieces
    | FalhaFilaComMenosDeTres   // the queue holds fewer than 3 pieces

  class Jogo {
    /** Circular queue: fila[FILA_CAP], fila_head, fila_count. */
    const fila: array<Peca>
    var filaHead: int
    var filaCount: int

    /** Array stack: pilha[PILHA_CAP], pilha_top (-1 when empty). */
    const pilha: array<Peca>
    var pilhaTop: int

    /** proximo_id: the id the next generated piece gets. */
    var proximoId: int

    /** The bounds every operation keeps. */
    ghost predicate Valid()
      reads this
    {
      && fila.Length == FilaCap && pilha.Length == PilhaCap && fila != pilha
      && 0 <= filaHead < FilaCap && 0 <= filaCount <= FilaCap
      && -1 <= pilhaTop < PilhaCap
      && 1 <= proximoId
    }

    /** The queued pieces, front to back. */
    function FilaSeq(): seq<Peca>
      reads this, fila
      requires Valid()
    {
      Anel(fila[..], filaHead, filaCount)
    }

    /** The stacked pieces, base to top. */
    function PilhaSeq(): seq<Peca>
      reads this, pilha
      requires Valid()
    {
      pilha[..pilhaTop + 1]
    }

    /** No two live pieces share an id, and every live id was handed out
        before proximo_id. */
    ghost predicate IdsVivosConsistentes()
      reads this, fila, pilha
      requires Valid()
    {
      IdsConsistentes(FilaSeq() + PilhaSeq(), proximoId)
    }

    /** The program's initial state: the globals' initialisers, zero-filled
        arrays. */
    constructor ()
      ensures Valid() && fresh(fila) && fresh(pilha)
      ensures FilaSeq() == [] && PilhaSeq() == [] && proximoId == 1
      ensures IdsVivosConsistentes()
    {
      fila := new Peca[FilaCap](_ => PecaZerada);
      pilha := new Peca[PilhaCap](_ => PecaZerada);
      filaHead, filaCount, pilhaTop, proximoId := 0, 0, -1, 1;
      new;
      assert Ids([]) == [];
    }

    // --------- generator ---------

    /** gerarPeca: the tag from the draw, the id from the counter, which
        moves on by one. */
    method GerarPeca(sorteio: nat) returns (p: Peca)
      requires Valid()
      modifies this`proximoId
      ensures Valid()
      ensures p == Peca(GerarTipoAleatorio(sorteio), old(proximoId))
      ensures proximoId == old(proximoId) + 1
    {
      p := Peca(GerarTipoAleatorio(sorteio), proximoId);
      proximoId := proximoId + 1;
    }

    // --------- queue ---------

    /** inicializarFila: empties the queue (the buffer is left as it is). */
    method InicializarFila()
      requires Valid()
      modifies this`filaHead, this`filaCount
      ensures Valid()
      ensures FilaSeq() == [] && filaHead == 0
    {
      filaHead := 0;
      filaCount := 0;
    }

    /** filaVazia */
    predicate FilaVazia()
      reads this, fila
      requires Valid()
      ensures FilaVazia() <==> FilaSeq() == []
    {
      filaCount == 0
    }

    /** filaCheia */
    predicate FilaCheia()
      reads this, fila
      requires Valid()
      ensures FilaCheia() <==> |FilaSeq()| == FilaCap
    {
      filaCount == FilaCap
    }

    /** fila_enqueue: on a full queue fails and changes nothing; otherwise
        appends `p` at the back. */
    method FilaEnqueue(p: Peca) returns (ok: bool)
      requires Valid()
      modifies this`filaCount, fila
      ensures Valid()
      ensures ok <==> old(|FilaSeq()|) < FilaCap
      ensures ok ==> FilaSeq() == old(FilaSeq()) + [p]
      ensures ok ==> fila[..] == old(fila[..])[Slot(filaHead, old(filaCount)) := p]
      ensures !ok ==> unchanged(this, fila)
    {
      if FilaCheia() {
        return false;
      }
      var idx := Slot(filaHead, filaCount);
      SlotSemModulo(filaHead, filaCount);
      AnelEnqueue(fila[..], filaHead, filaCount, p);
      fila[idx] := p;
      filaCount := filaCount + 1;
      return true;
    }

    /** fila_dequeue: on an empty queue fails and changes nothing; otherwise
        returns the front and removes it, head advancing mod FILA_CAP. */
    method FilaDequeue() returns (r: Option<Peca>)
      requires Valid()
      modifies this`filaHead, this`filaCount
      ensures Valid()
      ensures r.None? <==> old(FilaSeq()) == []
      ensures r.Some? ==> r.value == old(FilaSeq())[0] && FilaSeq() == old(FilaSeq())[1..]
      ensures r.Some? ==> filaHead == Slot(old(filaHead), 1) && filaCount == old(filaCount) - 1
      ensures r.None? ==> unchanged(this)
    {
      if FilaVazia() {
        return None;
      }
      AnelDequeue(fila[..], filaHead, filaCount);
      r := Some(fila[filaHead]);
      filaHead := Slot(filaHead, 1);
      filaCount := filaCount - 1;
    }

    // --------- stack ---------

    /** inicializarPilha: empties the stack. */
    method InicializarPilha()
      requires Valid()
      modifies this`pilhaTop
      ensures Valid()
      ensures PilhaSeq() == []
    {
      pilhaTop := -1;
    }

    /** pilhaVazia */
    predicate PilhaVazia()
      reads this, pilha
      requires Valid()
      ensures PilhaVazia() <==> PilhaSeq() == []
    {
      pilhaTop == -1
    }

    /** pilhaCheia */
    predicate PilhaCheia()
      reads this, pilha
      requires Valid()
      ensures PilhaCheia() <==> |PilhaSeq()| == PilhaCap
    {
      pilhaTop == PilhaCap - 1
    }

    /** pilha_push: on a full stack fails and changes nothing; otherwise
        puts `p` on top. */
    method PilhaPush(p: Peca) returns (ok: bool)
      requires Valid()
      modifies this`pilhaTop, pilha
      ensures Valid()
      ensures ok <==> old(|PilhaSeq()|) < PilhaCap
      ensures ok ==> PilhaSeq() == old(PilhaSeq()) + [p]
      ensures ok ==> pilha[..] == old(pilha[..])[old(pilhaTop) + 1 := p]
      ensures !ok ==> unchanged(this, pilha)
    {
      if PilhaCheia() {
        return false;
      }
      pilhaTop := pilhaTop + 1;
      pilha[pilhaTop] := p;
      return true;
    }

    /** pilha_pop: on an empty stack fails and changes nothing; otherwise
        returns the top and removes it. */
    method PilhaPop() returns (r: Option<Peca>)
      requires Valid()
      modifies this`pilhaTop
      ensures Valid()
      ensures r.None? <==> old(PilhaSeq()) == []
      ensures r.Some? ==> r.value == old(PilhaSeq())[|old(PilhaSeq())| - 1]
      ensures r.Some? ==> PilhaSeq() == old(PilhaSeq())[..|old(PilhaSeq())| - 1]
      ensures r.None? ==> unchanged(this)
    {
      if PilhaVazia() {
        return None;
      }
      r := Some(pilha[pilhaTop]);
      pilhaTop := pilhaTop - 1;
    }

    // --------- actions ---------

    /** jogarPeca: plays (removes) the front piece and puts a newly generated
        one at the back; on an empty queue nothing changes. Returns the piece
        that was played. */
    method JogarPeca(sorteio: nat) returns (jogada: Option<Peca>)
      requires Valid()
      modifies this`filaHead, this`filaCount, this`proximoId, fila
      ensures Valid()
      ensures jogada.None? <==> old(FilaSeq()) == []
      ensures jogada.None? ==> unchanged(this, fila)
      ensures jogada.Some? ==> jogada.value == old(FilaSeq())[0]
      ensures jogada.Some? ==>
        FilaSeq() == old(FilaSeq())[1..] + [Peca(GerarTipoAleatorio(sorteio), old(proximoId))]
      ensures jogada.Some? ==> proximoId == old(proximoId) + 1
      ensures old(IdsVivosConsistentes()) ==> IdsVivosConsistentes()
    {
      ghost var q, b, n := FilaSeq(), PilhaSeq(), proximoId;
      jogada := FilaDequeue();
      if jogada.None? {
        return;
      }
      var nova := GerarPeca(sorteio);
      var ok := FilaEnqueue(nova);
      assert ok && FilaSeq() == q[1..] + [nova] && PilhaSeq() == b;
      if IdsConsistentes(q + b, n) {
        IdsAposJogar(q, b, nova, n);
      }
    }

    /** enviarFilaParaPilha: moves the front piece onto the stack and puts a
        newly generated one at the back; aborts with no change when the queue
        is empty or (checked second) the stack is full. */
    method EnviarFilaParaPilha(sorteio: nat) returns (r: Resultado)
      requires Valid()
      modifies this`filaHead, this`filaCount, this`pilhaTop, this`proximoId, fila, pilha
      ensures Valid()
      ensures r == if old(FilaSeq()) == [] then FalhaFilaVazia
                   else if old(|PilhaSeq()|) == PilhaCap then FalhaPilhaCheia
                   else Sucesso
      ensures r != Sucesso ==> unchanged(this, fila, pilha)
      ensures r == Sucesso ==> PilhaSeq() == old(PilhaSeq()) + [old(FilaSeq())[0]]
      ensures r == Sucesso ==>
        FilaSeq() == old(FilaSeq())[1..] + [Peca(GerarTipoAleatorio(sorteio), old(proximoId))]
      ensures r == Sucesso ==> proximoId == old(proximoId) + 1
      ensures old(IdsVivosConsistentes()) ==> IdsVivosConsistentes()
    {
      if FilaVazia() {
        return FalhaFilaVazia;
      }
      if PilhaCheia() {
        return FalhaPilhaCheia;
      }
      ghost var q, b, n := FilaSeq(), PilhaSeq(), proximoId;
      var p := FilaDequeue();
      var pushed := PilhaPush(p.value);
      assert FilaSeq() == q[1..];
      var nova := GerarPeca(sorteio);
      var ok := FilaEnqueue(nova);
      assert ok && pushed;
      if IdsConsistentes(q + b, n) {
        IdsAposEnviar(q, b, nova, n);
      }
      return Sucesso;
    }

    /** usarPecaReserva: pops (consumes) the top of the stack; on an empty
        stack nothing changes. Returns the piece that was used. */
    method UsarPecaReserva() returns (usada: Option<Peca>)
      requires Valid()
      modifies this`pilhaTop
      ensures Valid()
      ensures usada.None? <==> old(PilhaSeq()) == []
      ensures usada.None? ==> unchanged(this)
      ensures usada.Some? ==> usada.value == old(PilhaSeq())[|old(PilhaSeq())| - 1]
      ensures usada.Some? ==> PilhaSeq() == old(PilhaSeq())[..|old(PilhaSeq())| - 1]
      ensures old(IdsVivosConsistentes()) ==> IdsVivosConsistentes()
    {
      ghost var q, b := FilaSeq(), PilhaSeq();
      if PilhaVazia() {
        return None;
      }
      usada := PilhaPop();
      if IdsConsistentes(q + b, proximoId) {
        IdsAposUsar(q, b, proximoId);
      }
    }

    /** trocarFrenteComTopo: exchanges the queue's front slot with the
        stack's top slot; aborts with no change when the queue is empty or
        (checked second) the stack is empty. */
    method TrocarFrenteComTopo() returns (r: Resultado)
      requires Valid()
      modifies fila, pilha
      ensures Valid()
      ensures r == if old(FilaSeq()) == [] then FalhaFilaVazia
                   else if old(PilhaSeq()) == [] then FalhaPilhaVazia
                   else Sucesso
      ensures r != Sucesso ==> unchanged(fila, pilha)
      ensures r == Sucesso ==>
        FilaSeq() == [old(PilhaSeq())[pilhaTop]] + old(FilaSeq())[1..]
      ensures r == Sucesso ==>
        PilhaSeq() == old(PilhaSeq())[..pilhaTop] + [old(FilaSeq())[0]]
      ensures forall m :: 0 <= m < FilaCap && m != filaHead ==> fila[m] == old(fila[m])
      ensures forall m :: 0 <= m < PilhaCap && m != pilhaTop ==> pilha[m] == old(pilha[m])
      ensures old(IdsVivosConsistentes()) ==> IdsVivosConsistentes()
    {
      if FilaVazia() {
        return FalhaFilaVazia;
      }
      if PilhaVazia() {
        return FalhaPilhaVazia;
      }
      ghost var q, b := FilaSeq(), PilhaSeq();
      ghost var buf := fila[..];
      var idxFrente := filaHead;
      var temp := fila[idxFrente];
      fila[idxFrente] := pilha[pilhaTop];
      pilha[pilhaTop] := temp;
      SlotSemModulo(filaHead, 0);
      forall k | 1 <= k < FilaCap
        ensures fila[..][Slot(filaHead, k)] == buf[Slot(filaHead, k)]
      {
        SlotInjetivo(filaHead, 0, k);
        SlotSemModulo(filaHead, k);
      }
      AnelSobrescreveFrente(buf, fila[..], filaHead, filaCount, [b[pilhaTop]]);
      assert b == b[..pilhaTop] + [b[pilhaTop]];
      assert PilhaSeq() == b[..pilhaTop] + [q[0]];
      if IdsConsistentes(q + b, proximoId) {
        IdsAposTrocarFrente(q, b, proximoId);
      }
      return Sucesso;
    }

    /** trocarTresPrimeirosComPilha: with stack [b0, b1, b2] (base to top)
        and queue front [q0, q1, q2], the queue front becomes [b2, b1, b0]
        and the stack [q2, q1, q0]; aborts with no change unless the stack
        holds exactly 3 pieces and (checked second) the queue at least 3. */
    method TrocarTresPrimeirosComPilha() returns (r: Resultado)
      requires Valid()
      modifies fila, pilha
      ensures Valid()
      ensures r == if old(|PilhaSeq()|) != 3 then FalhaPilhaSemTres
                   else if old(|FilaSeq()|) < 3 then FalhaFilaComMenosDeTres
                   else Sucesso
      ensures r != Sucesso ==> unchanged(fila, pilha)
      ensures r == Sucesso ==> (FilaSeq(), PilhaSeq()) == TrocaTres(old(FilaSeq()), old(PilhaSeq()))
      ensures forall k :: 3 <= k < FilaCap ==> fila[Slot(filaHead, k)] == old(fila[Slot(filaHead, k)])
      ensures old(IdsVivosConsistentes()) ==> IdsVivosConsistentes()
    {
      if pilhaTop + 1 != 3 {
        return FalhaPilhaSemTres;
      }
      if filaCount < 3 {
        return FalhaFilaComMenosDeTres;
      }
      ghost var q, b := FilaSeq(), PilhaSeq();
      ghost var buf := fila[..];

      // save the queue's first three pieces
      var tempFila := new Peca[3](_ => PecaZerada);
      for i := 0 to 3
        modifies tempFila
        invariant forall k :: 0 <= k < i ==> tempFila[k] == q[k]
      {
        tempFila[i] := fila[Slot(filaHead, i)];
      }

      // copy the stack, top first, into the queue's first three positions
      for i := 0 to 3
        modifies fila
        invariant forall k :: 0 <= k < i ==> fila[Slot(filaHead, k)] == pilha[2 - k]
        invariant forall k :: i <= k < FilaCap ==> fila[Slot(filaHead, k)] == buf[Slot(filaHead, k)]
      {
        forall k | 0 <= k < FilaCap && k != i
          ensures Slot(filaHead, k) != Slot(filaHead, i)
        {
          SlotInjetivo(filaHead, k, i);
        }
        fila[Slot(filaHead, i)] := pilha[2 - i];
      }

      // the saved pieces go onto the stack, the front one on top
      pilha[2] := tempFila[0];
      pilha[1] := tempFila[1];
      pilha[0] := tempFila[2];

      assert pilha[..] == [q[2], q[1], q[0]];
      AnelTrocaTres(buf, fila[..], filaHead, filaCount, b, pilha[..]);
      assert PilhaSeq() == pilha[..];
      if IdsConsistentes(q + b, proximoId) {
        IdsAposTrocarTres(q, b, proximoId);
      }
      return Sucesso;
    }

    // --------- start-up ---------

    /** inicializarJogo: empties both containers and fills the queue with
        FILA_CAP newly generated pieces, one per draw. */
    method InicializarJogo(sorteios: seq<nat>)
      requires Valid()
      requires |sorteios| == FilaCap
      modifies this`filaHead, this`filaCount, this`pilhaTop, this`proximoId, fila
      ensures Valid()
      ensures filaHead == 0
      ensures FilaSeq() == Geradas(sorteios, old(proximoId))
      ensures PilhaSeq() == []
      ensures proximoId == old(proximoId) + FilaCap
      ensures IdsVivosConsistentes()
    {
      InicializarFila();
      InicializarPilha();
      for i := 0 to FilaCap
        modifies this`filaCount, this`proximoId, fila
        invariant filaCount == i && proximoId == old(proximoId) + i
        invariant FilaSeq() == Geradas(sorteios[..i], old(proximoId))
      {
        var p := GerarPeca(sorteios[i]);
        var ok := FilaEnqueue(p);
        GeradasMaisUma(sorteios, i, old(proximoId));
      }
      assert sorteios[..FilaCap] == sorteios;
      assert FilaSeq() + PilhaSeq() == FilaSeq();
      IdsGeradasConsistentes(sorteios, old(proximoId));
    }
  }
}
