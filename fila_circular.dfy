/** The index arithmetic of the circular queue (tetris.c, fila with
    fila_head and fila_count) and the abstraction from the buffer to the
    front-to-back sequence of queued pieces. */
module FilaCircular {
  import opened Pecas

  /** FILA_CAP */
  const FilaCap := 5

  /** The buffer slot that holds the k-th queued piece: (head + k) % FILA_CAP. */
  function Slot(head: int, k: int): int
  {
    (head + k) % FilaCap
  }

  /** The logical queue read off the buffer, front to back. */
  function Anel(buf: seq<Peca>, head: int, count: int): seq<Peca>
    requires |buf| == FilaCap && 0 <= head < FilaCap && 0 <= count <= FilaCap
  {
    seq(count, k requires 0 <= k < count => buf[Slot(head, k)])
  }

  /** A slot index stays within the buffer and needs at most one wrap. */
  lemma SlotSemModulo(head: int, k: int)
    requires 0 <= head < FilaCap && 0 <= k < FilaCap
    ensures 0 <= Slot(head, k) < FilaCap
    ensures Slot(head, k) == if head + k < FilaCap then head + k else head + k - FilaCap
  {
  }

  /** The first FILA_CAP logical positions occupy distinct slots. */
  lemma SlotInjetivo(head: int, i: int, j: int)
    requires 0 <= head < FilaCap && 0 <= i < FilaCap && 0 <= j < FilaCap
    ensures Slot(head, i) == Slot(head, j) <==> i == j
  {
    SlotSemModulo(head, i);
    SlotSemModulo(head, j);
  }

  /** Reference reading of the ring: the queue is one contiguous run of the
      buffer, or a run to the end followed by a run from the start. */
  lemma AnelContiguo(buf: seq<Peca>, head: int, count: int)
    requires |buf| == FilaCap && 0 <= head < FilaCap && 0 <= count <= FilaCap
    ensures Anel(buf, head, count) ==
      if head + count <= FilaCap then buf[head..head + count]
      else buf[head..] + buf[..head + count - FilaCap]
  {
    var r := Anel(buf, head, count);
    var c := if head + count <= FilaCap then buf[head..head + count]
             else buf[head..] + buf[..head + count - FilaCap];
    assert |c| == count;
    forall k | 0 <= k < count
      ensures r[k] == c[k]
    {
      SlotSemModulo(head, k);
    }
  }

  /** fila_enqueue: writing the slot after the last queued piece and counting
      one more appends that piece at the back. */
  lemma AnelEnqueue(buf: seq<Peca>, head: int, count: int, p: Peca)
    requires |buf| == FilaCap && 0 <= head < FilaCap && 0 <= count < FilaCap
    ensures Anel(buf[Slot(head, count) := p], head, count + 1) == Anel(buf, head, count) + [p]
  {
    var r := Anel(buf[Slot(head, count) := p], head, count + 1);
    var s := Anel(buf, head, count) + [p];
    SlotSemModulo(head, count);
    forall k | 0 <= k < count + 1
      ensures r[k] == s[k]
    {
      SlotInjetivo(head, k, count);
    }
  }

  /** fila_dequeue: the front is the slot at head; advancing head by one
      (mod FILA_CAP) and counting one fewer drops the front. */
  lemma AnelDequeue(buf: seq<Peca>, head: int, count: int)
    requires |buf| == FilaCap && 0 <= head < FilaCap && 0 < count <= FilaCap
    ensures Anel(buf, head, count)[0] == buf[head]
    ensures 0 <= Slot(head, 1) < FilaCap
    ensures Anel(buf, Slot(head, 1), count - 1) == Anel(buf, head, count)[1..]
  {
    var r := Anel(buf, Slot(head, 1), count - 1);
    var s := Anel(buf, head, count)[1..];
    SlotSemModulo(head, 0);
    SlotSemModulo(head, 1);
    forall k | 0 <= k < count - 1
      ensures r[k] == s[k]
    {
      SlotSemModulo(head, k + 1);
      SlotSemModulo(Slot(head, 1), k);
    }
  }

  /** Overwriting the first n logical positions with `xs` (and writing no
      other slot) replaces the first n queued pieces by `xs`. */
  lemma AnelSobrescreveFrente(buf: seq<Peca>, buf': seq<Peca>, head: int, count: int, xs: seq<Peca>)
    requires |buf| == FilaCap && |buf'| == FilaCap && 0 <= head < FilaCap
    requires |xs| <= count <= FilaCap
    requires forall k :: 0 <= k < |xs| ==> buf'[Slot(head, k)] == xs[k]
    requires forall k :: |xs| <= k < FilaCap ==> buf'[Slot(head, k)] == buf[Slot(head, k)]
    ensures Anel(buf', head, count) == xs + Anel(buf, head, count)[|xs|..]
  {
    var r := Anel(buf', head, count);
    var s := xs + Anel(buf, head, count)[|xs|..];
    forall k | 0 <= k < count
      ensures r[k] == s[k]
    {
      SlotSemModulo(head, k);
    }
  }

  /** Writing the stack, top first, over the three front slots while the three front
      pieces go onto the stack, front on top, is the swap TrocaTres on the views. */
  lemma AnelTrocaTres(buf: seq<Peca>, buf': seq<Peca>, head: int, count: int, b: seq<Peca>, b': seq<Peca>)
    requires |buf| == FilaCap && |buf'| == FilaCap && 0 <= head < FilaCap
    requires 3 <= count <= FilaCap && |b| == 3
    requires forall k :: 0 <= k < 3 ==> buf'[Slot(head, k)] == b[2 - k]
    requires forall k :: 3 <= k < FilaCap ==> buf'[Slot(head, k)] == buf[Slot(head, k)]
    requires b' == [Anel(buf, head, count)[2], Anel(buf, head, count)[1], Anel(buf, head, count)[0]]
    ensures (Anel(buf', head, count), b') == TrocaTres(Anel(buf, head, count), b)
  {
    AnelSobrescreveFrente(buf, buf', head, count, [b[2], b[1], b[0]]);
  }
}
