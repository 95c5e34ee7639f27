# Tetris Stack: queue, reserve stack and piece generator

This project models the terminal game in `tetris.c`: a circular queue of
upcoming pieces (capacity `FILA_CAP` = 5, kept as the array `fila` with
`fila_head` and `fila_count`), a reserve stack (capacity `PILHA_CAP` = 3,
kept as the array `pilha` with `pilha_top`, -1 when empty), the id counter
`proximo_id` (starting at 1), and the five player actions that move, swap or
consume pieces, plus the start-up fill of the queue.

The C globals become one object, `Tetris.Jogo`, whose fields are the two
arrays and the four counters. Each C function except `gerarTipoAleatorio`
(which becomes the function `Pecas.GerarTipoAleatorio`), the display
functions and `main` becomes a member of `Jogo`: the four empty/full queries
are predicates, and the rest are methods that update the arrays in place,
with the same checks in the same order. Their contracts are stated against
two views:

- `FilaSeq()`: the queued pieces front to back, `fila[(fila_head + i) % 5]`
  for `i < fila_count` (the order `mostrarFila` lists them in);
- `PilhaSeq()`: `pilha[0 .. pilha_top]`, base to top.

`Valid()` holds the bounds every operation keeps (`0 <= fila_head < 5`,
`0 <= fila_count <= 5`, `-1 <= pilha_top <= 2`, `proximo_id >= 1`).
`IdsVivosConsistentes()` says that no two live pieces share an id and that
every live id is below `proximo_id`; every action preserves it and the
start-up fill establishes it.

Files:

- `wrappers.dfy`: `Option`, for the value a C function hands back through
  its out-pointer together with its 0/1 result.
- `pecas.dfy`: the piece type, the tag choice of `gerarTipoAleatorio`, the
  exchange of three with three as a function on sequences (`TrocaTres`), and
  the id bookkeeping lemmas, one per action.
- `fila_circular.dfy`: the slot arithmetic `(head + k) % 5`, the reading of
  the ring buffer as a sequence, and the lemmas that tie each buffer write
  (append, drop the front, overwrite the front, exchange three) to the change
  of that sequence.
- `jogo.dfy`: the game object, with the queue and stack functions, the
  generator `gerarPeca`, the five actions and `inicializarJogo` as its
  members.
- `cenarios.dfy`: client code: the start-up run, Reserve followed by Use
  Reserve, and the LIFO, FIFO and swap-twice laws, derived from the
  operations' contracts alone.

Randomness is an input: `rand()`'s result is the parameter `sorteio`, and
the tag is the table entry at `sorteio % 7`, as in the C code. The start-up
fill takes the five draws as a sequence.

After Play on a full queue the queue is full again: `jogarPeca` dequeues
once, then enqueues once (tetris.c:124-131).

## Model

| member | source | states |
|---|---|---|
| `Pecas.GerarTipoAleatorio` | tetris.c:27-32 | the generated tag is one of I, O, T, S, Z, J, L |
| `Pecas.TodoTipoSorteavel` | tetris.c:29-31 | every one of the seven tags is produced by some draw below 7 |
| `Pecas.IdsGeradasConsistentes` | tetris.c:34-39 | a run of the generator from a counter >= 1 never repeats an id and hands out only ids below the counter it leaves behind |
| `Pecas.IdsAposAcrescentar` | tetris.c:206-208 | adding a piece that carries the counter's id to consistent pieces keeps them consistent with the next counter |
| `Pecas.IdsAposJogar` | tetris.c:121-133 | dropping the front and adding a fresh piece at the back keeps the live ids unique and below the counter |
| `Pecas.IdsAposEnviar` | tetris.c:135-148 | moving the front onto the stack and adding a fresh piece keeps the live ids unique and below the counter |
| `Pecas.IdsAposUsar` | tetris.c:150-156 | consuming the stack's top keeps the live ids unique and below the counter |
| `Pecas.IdsAposTrocarFrente` | tetris.c:158-170 | exchanging the queue's front and the stack's top keeps the live ids unique and below the counter |
| `Pecas.IdsTrocarTresPermuta` | tetris.c:172-199 | exchanging three with three leaves the multiset of live ids unchanged |
| `Pecas.IdsAposTrocarTres` | tetris.c:172-199 | exchanging three with three keeps the live ids unique and below the counter |
| `FilaCircular.SlotSemModulo` | tetris.c:57 | `(head + k) % 5` is a valid slot and wraps at most once |
| `FilaCircular.SlotInjetivo` | tetris.c:185-189 | the first five logical positions of the queue occupy distinct slots |
| `FilaCircular.AnelContiguo` | tetris.c:77-80 | the queue read off the ring is one run of the buffer, or a run to its end followed by a run from its start |
| `FilaCircular.AnelEnqueue` | tetris.c:55-61 | writing slot `(head + count) % 5` and counting one more appends the piece at the back |
| `FilaCircular.AnelDequeue` | tetris.c:63-69 | the front is `fila[head]`; advancing head mod 5 and counting one fewer drops exactly the front |
| `FilaCircular.AnelSobrescreveFrente` | tetris.c:184-189 | overwriting the first n logical slots, and no other, replaces the first n queued pieces |
| `FilaCircular.AnelTrocaTres` | tetris.c:184-196 | writing the stack top first over the first three slots while the first three queued pieces go onto the stack, front on top, is `TrocaTres` applied to the queue and the stack |
| `Pecas.TrocaTres` | tetris.c:172-199 | the exchange of three with three keeps the queue's length and leaves three pieces on the stack |
| `Pecas.TrocaTresInvolucao` | tetris.c:172-199 | performing the exchange of three with three twice gives back both sequences |
| `Tetris.Jogo.constructor` | tetris.c:15-24 | the initial state: empty queue, empty stack, counter at 1, no live ids |
| `Tetris.Jogo.GerarPeca` | tetris.c:34-39 | the new piece has the drawn tag and the old counter as id; the counter goes up by one and nothing else changes |
| `Tetris.Jogo.InicializarFila` | tetris.c:42-45 | the queue becomes empty with head 0 |
| `Tetris.Jogo.FilaVazia` | tetris.c:47-49 | true exactly when no piece is queued |
| `Tetris.Jogo.FilaCheia` | tetris.c:51-53 | true exactly when five pieces are queued |
| `Tetris.Jogo.FilaEnqueue` | tetris.c:55-61 | fails exactly on a full queue and then changes nothing; otherwise the queue becomes the old queue plus the piece at the back, and only slot `(head + count) % 5` is written |
| `Tetris.Jogo.FilaDequeue` | tetris.c:63-69 | fails exactly on an empty queue and then changes nothing; otherwise returns the old front, the queue loses its front, head advances mod 5 and count drops by one |
| `Tetris.Jogo.InicializarPilha` | tetris.c:84-86 | the stack becomes empty |
| `Tetris.Jogo.PilhaVazia` | tetris.c:88-90 | true exactly when no piece is stacked |
| `Tetris.Jogo.PilhaCheia` | tetris.c:92-94 | true exactly when three pieces are stacked |
| `Tetris.Jogo.PilhaPush` | tetris.c:96-100 | fails exactly on a full stack and then changes nothing; otherwise the piece becomes the new top and only the slot above the old top is written |
| `Tetris.Jogo.PilhaPop` | tetris.c:102-107 | fails exactly on an empty stack and then changes nothing; otherwise returns the old top and removes it |
| `Tetris.Jogo.JogarPeca` | tetris.c:121-133 | on an empty queue nothing changes; otherwise returns the old front, the queue becomes its tail plus a new piece whose id is the old counter, the counter goes up by one, the stack is untouched and live ids stay consistent |
| `Tetris.Jogo.EnviarFilaParaPilha` | tetris.c:135-148 | fails with "queue empty", else with "stack full", changing nothing; otherwise the old front becomes the stack's top and the queue becomes its tail plus a new piece with the old counter as id; live ids stay consistent |
| `Tetris.Jogo.UsarPecaReserva` | tetris.c:150-156 | on an empty stack nothing changes; otherwise returns the top, which is removed; the queue is untouched and live ids stay consistent |
| `Tetris.Jogo.TrocarFrenteComTopo` | tetris.c:158-170 | fails with "queue empty", else with "stack empty", changing nothing; otherwise the queue's front and the stack's top exchange values, sizes stay, every other slot of both arrays is unchanged |
| `Tetris.Jogo.TrocarTresPrimeirosComPilha` | tetris.c:172-199 | fails unless the stack holds exactly three (checked first) and the queue at least three, changing nothing; otherwise the queue and the stack become `TrocaTres` of the old ones: with stack [b0, b1, b2] and queue front [q0, q1, q2] the queue becomes [b2, b1, b0] followed by its old rest and the stack [q2, q1, q0]; queue slots past the third are unchanged and live ids stay consistent |
| `Tetris.Jogo.InicializarJogo` | tetris.c:202-209 | both containers are emptied, then the queue holds five new pieces, one per draw, with ids counter .. counter + 4, head 0; the counter goes up by five and live ids are consistent |
| `Cenarios.Inicio` | tetris.c:202-209 | from the program's initial state, start-up leaves the queue with ids 1, 2, 3, 4, 5, an empty stack and the counter at 6 |
| `Cenarios.ReservaUso` | tetris.c:135-156 | after start-up, Reserve leaves queue ids 2..6 and stack [1]; Use Reserve then returns piece 1 and empties the stack |
| `Cenarios.InicioReservaUso` | tetris.c:202-209 | the whole run start-up, Reserve, Use Reserve: ids 1..5, then 2..6 with stack [1], then piece 1 handed back |
| `Cenarios.PushPop` | tetris.c:96-107 | LIFO: a push that succeeds is undone by the next pop, which returns the pushed piece |
| `Cenarios.EnqueueDequeue` | tetris.c:55-69 | FIFO: after a successful enqueue, the dequeue returns the old front (or the new piece on an empty queue) |
| `Cenarios.ReservarEUsar` | tetris.c:135-156 | when Reserve succeeds, the following Use Reserve returns the piece that was at the queue's front and restores the stack |
| `Cenarios.TrocarFrenteDuasVezes` | tetris.c:158-170 | swapping front and top twice gives the same outcome both times and restores both containers |
| `Cenarios.TrocarTresDuasVezes` | tetris.c:172-199 | swapping three with three twice gives the same outcome both times and restores both containers |

## Left out

- Console output: `mostrarFila`, `mostrarPilha`, `mostrarEstado` and the messages the actions print. The actions instead return what they would print: the piece played or used, or a `Resultado` naming which check failed.
- `main`: the menu loop, reading the option with `scanf`, discarding a malformed input line, and the `switch` that calls one action per option; this is interactive input and output.
- `srand(time(NULL))` and `rand()`: the draw is a parameter (`sorteio`), and the start-up fill takes its five draws as a sequence.
- The `if (out)` guard in `fila_dequeue` and `pilha_pop`: every caller passes the address of a local, so the value is always returned.
- Tetris.Jogo.GerarPeca: the counter is an unbounded integer; the C `int` overflow after 2^31 - 1 pieces is not modelled.
- Tetris.Jogo.FilaEnqueue: id uniqueness is stated for the five actions and the start-up fill, not for direct calls of `fila_enqueue` or `pilha_push` with an arbitrary piece, which the program never makes.
- The process exit status.
