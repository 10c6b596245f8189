# final_sentence_backend — the game manager in Dafny

This project models the core of "Final Sentence", a multiplayer typing game
with a horror theme. The core is the in-memory game manager
`AdministradorJuego` in `game_manager.py` and the record types of
`models.py`, and the project proves properties of the model.

The game works like this:

- A host creates a room that has a random six-character code.
- Players join the room by that code.
- When a round starts, every player is reset and one phrase is drawn from
  the pool.
- Each submitted text is compared with the phrase after trimming. A match
  records the player's words per minute; a mismatch counts an error, and
  three errors eliminate the player.
- The round ends when exactly one player is still playing, or when the
  round timer fires. In the second case the winner is chosen by progress.
- Every event is broadcast to the room's connections. A connection whose
  send fails is dropped.

The modules follow the program:

| file | module | what it models |
|---|---|---|
| `texto.dfy` | `Texto` | Python's `str.isspace`, `str.strip`, `str.split()` and `str(n)` |
| `modelos.dfy` | `Modelos` | `models.py`: the `EstadoJugador` and `TipoSala` enums, and the `Jugador`, `Frase` and `Sala` records with their defaults |
| `frases.dfy` | `Frases` | `_cargar_frases_mezcladas`: the phrase-pool merge, as functions and as the two loops of the source |
| `mensajes.dfy` | `Mensajes` | the broadcast payloads (`_serializar_jugador` and the statistics of `finalizar_partida`) |
| `filtro.dfy` | `Filtro` | filtering a list by a test in order: the list comprehensions of `game_manager.py` and the pruning of failed connections |
| `difusion.dfy` | `Difusion` | the fan-out loop of `transmitir_a_sala` |
| `ronda.dfy` | `Ronda` | the rules of a round on room values: reset, match, error count, elimination, last player standing, timeout winner |
| `juego.dfy` | `Juego` | the class `AdministradorJuego` |

### The class `AdministradorJuego`

The class has these fields:

- `frasesTerror`: the phrase pool;
- `salasActivas`: the active rooms, by id;
- `conexiones`: each room's connections;
- `monitores`: one round timer per room;
- `almacen`: the room store, as a list of room documents;
- `salida`: the deliveries made so far.

Each method changes exactly what its contract names. Every method that
changes the rooms, the pool or the store keeps the class invariant
`Valid()`. `TransmitirASala` and `Conectar` change only connection lists
and deliveries, which `Valid()` does not constrain, so they neither need
nor state it. `Valid()` says:

- the pool is non-empty and holds only non-empty texts;
- every active room is filed under its own id;
- no room, active or stored, has two players with the same id;
- no room holds more players than its capacity;
- no two stored rooms share an id, as the unique index on `id` ensures.

### What the environment supplies

Everything the source takes from the environment is passed in as a
parameter:

- the answer of the phrase query, a `Consulta`. A failed query and an empty
  answer are the same case;
- the random code draws, in order, as a list of candidates;
- the index that `random.choice` draws from the pool;
- the current time;
- the seconds a player took;
- the outcome of each send, as an oracle `ok` on connections;
- the firing of the round timer, as the method `DispararTemporizador`.

## Model

| member | source | states |
|---|---|---|
| Modelos.EstadosJugadorCompletos | models.py:7-12 | a player status is one of exactly five values (CONECTADO, ESPERANDO, JUGANDO, ELIMINADO, GANADOR), each with its own string |
| Modelos.TiposSalaCompletos | models.py:14-16 | a room type is one of exactly two values (PUBLICA, PRIVADA), with different strings |
| Modelos.NuevoJugador | models.py:18-26 | a freshly built player has status CONECTADO, no errors, ppm 0, progress 0 and is connected |
| Modelos.NuevaSala | models.py:34-45 | a freshly built room is "esperando", in round 0, with no phrase, no start time and a time limit of 45 |
| Texto.Strip | game_manager.py:49 | the result of `strip()` never starts or ends with whitespace |
| Texto.StripIdempotent | game_manager.py:243 | stripping twice is stripping once |
| Texto.StripFixedPoint | game_manager.py:74 | a string is unchanged by `strip()` if and only if it has whitespace at neither end |
| Texto.StripIsSlice | game_manager.py:49 | `strip()` removes exactly a whitespace prefix and a whitespace suffix, and keeps the slice between them |
| Texto.Split | game_manager.py:245 | `split()` yields non-empty words with no whitespace in them |
| Texto.WordCountIsRuns | game_manager.py:245 | the number of words `split()` yields is the number of maximal runs of non-whitespace characters |
| Texto.Decimal | game_manager.py:78 | `str(n)` is a non-empty string of decimal digits with no leading zero |
| Texto.DecimalRoundTrip | game_manager.py:78 | reading the digits of `str(n)` back as a decimal number gives `n` |
| Texto.DecimalInjective | game_manager.py:78 | two numbers have the same `str` exactly when they are equal |
| Frases.AcumularBienFormada | game_manager.py:48-57 | each merge loop keeps the pool's texts distinct, trimmed and, where required, non-empty |
| Frases.AcumularIncluyeNuevas | game_manager.py:50-52 | every candidate whose text is new at its turn (and non-empty, in the document loop) is appended |
| Frases.AcumularSoloNuevas | game_manager.py:75-77 | every phrase a loop appends was a candidate that was new at its turn |
| Frases.LocalesNoVacias | game_manager.py:62-70 | each of the seven built-in phrases is non-empty once trimmed |
| Frases.MezclaBienFormada | game_manager.py:37-86 | the pool holds only non-empty trimmed texts, none twice, and every built-in text, so it is never empty, even when the store fails |
| Frases.DocsEnOrden | game_manager.py:46-57 | the phrases kept from the fetched documents come first in the pool, in document order |
| Frases.DocsPrimeras | game_manager.py:48-57 | each phrase kept from the documents comes from the first document that carries its trimmed text |
| Frases.DocsCompletas | game_manager.py:49-50 | every document whose trimmed text is non-empty has that text in the pool |
| Frases.IdsLocalesDistintos | game_manager.py:78 | two built-in phrases get the same id `local_i` exactly when they are at the same position |
| Frases.LocalIncluida | game_manager.py:73-82 | a built-in phrase whose text is new against the fetched ones is in the pool, with id `local_i` |
| Frases.SoloLocalesNuevas | game_manager.py:73-82 | everything after the fetched phrases is a built-in phrase that was new |
| Frases.FiltrarDocs | game_manager.py:46-57 | the loop over documents builds the document part of the pool, and the set of used texts is exactly the texts kept |
| Frases.AnadirLocales | game_manager.py:72-82 | the loop over the built-in phrases appends exactly the new ones to the pool |
| Frases.CargarFrasesMezcladas | game_manager.py:34-86 | the loader returns the merged pool, which is non-empty, trimmed, with no empty text and no duplicate |
| Mensajes.TiposDistintos | game_manager.py:149-300 | messages of different kinds carry different `tipo` strings |
| Mensajes.SerializarOlvidaConectado | game_manager.py:330-339 | two players serialise alike if and only if they differ at most in `conectado` |
| Mensajes.Estadisticas | game_manager.py:292-301 | the statistics have one entry per player, in list order, with the player's id, name, ppm, errors and progress |
| Mensajes.EstadisticasConcat | game_manager.py:292-301 | statistics distribute over concatenation of player lists |
| Filtro.FiltrarSubsecuencia | game_manager.py:312-321 | a filter keeps a subsequence of the list, in its original order; for a broadcast, the connections whose send succeeded |
| Filtro.FiltrarMultiset | game_manager.py:312-321 | an element is kept if and only if it was listed and passes the test (a connection: its send succeeded), as many times as it was listed |
| Filtro.FiltrarTodas | game_manager.py:312-321 | when every element passes the test (every send succeeds), nothing is dropped |
| Filtro.FiltrarIdempotente | game_manager.py:312-321 | filtering again with the same test (pruning again with the same send outcomes) drops nothing more |
| Difusion.DifundirSeguidos | game_manager.py:308-324 | two broadcasts in a row with the same send outcomes prune once and deliver the messages in order, like one broadcast of both |
| Difusion.EnviarATodos | game_manager.py:312-321 | the fan-out loop keeps exactly the connections whose send succeeded and delivers the message on each of them once |
| Ronda.IniciadaReinicia | game_manager.py:173-187 | starting a round sets the room playing, increases the round by exactly one and sets phrase and start time; it resets every player's status, progress, speed and errors, changes nothing else of any player, and adds, removes or reorders none; the room stays well formed |
| Ronda.Buscar | game_manager.py:237 | the lookup finds the first player with the id, and finds none exactly when no player has it |
| Filtro.FiltrarVacio | game_manager.py:268 | a filter comprehension is empty exactly when no player satisfies its test |
| Filtro.FiltrarUno | game_manager.py:268-269 | a filter holds exactly one player exactly when one position satisfies its test, and then holds that player |
| Ronda.GanadorPorTiempoCasos | game_manager.py:219-225 | at timeout, the winner is the single player below 100 progress; with none, it is the first player; with two or more, nobody; an empty room raises an index error |
| Ronda.CoincideRecortado | game_manager.py:243 | whitespace around either text never decides a match, and the phrase always matches itself |
| Ronda.CierreCasos | game_manager.py:268-270 | after a submission, the round finishes exactly when one player is left playing, and that player is the reported winner |
| Ronda.CierreSoloCambia | game_manager.py:268-302 | closing after changing one player changes only that player and, perhaps, the room's status |
| Ronda.AciertoCasos | game_manager.py:243-252 | a match with no time taken raises after setting the progress; any other match also records the speed and reports the completion |
| Ronda.ErradoCasos | game_manager.py:253-266 | a mismatch counts one error and reports it; the player is eliminated, with a second report, exactly at three or more errors |
| Ronda.EscrituraIgnorada | game_manager.py:237-239 | a submission by a player who is not in the room, or is not playing, changes nothing and sends nothing |
| Ronda.EscrituraSinFrase | game_manager.py:241 | a playing player's submission to a room with no phrase raises before changing anything |
| Ronda.EscrituraAcierto | game_manager.py:243-252 | a match sets progress 100 and ppm = words / seconds × 60, leaves the status and errors unchanged, and reports the completion first |
| Ronda.AciertoNoCierra | game_manager.py:243-270 | a match never ends a round in which another player is still playing |
| Ronda.EscrituraDivisionPorCero | game_manager.py:246 | a match with zero seconds raises after the progress is set to 100, and sends nothing |
| Ronda.EscrituraError | game_manager.py:253-266 | a mismatch changes only the error count, by one, and eliminates the player exactly when it reaches three or more |
| Ronda.EscrituraUltimoEnPie | game_manager.py:268-270 | after a processed submission, the round is over exactly when one player is left playing, and the last message names that player the winner |
| Ronda.MismosIds | game_manager.py:183-187 | changing players in place without touching their ids keeps a room well formed |
| Ronda.EscrituraPreservaValida | game_manager.py:233-270 | a submission never adds, removes or renames a player, and keeps the room well formed |
| Juego.BuscarPorCodigo | database.py:86-88 | the store lookup returns a stored room with the code, or nothing exactly when no stored room has it |
| Juego.ActualizarPorId | database.py:90-91 | an update replaces the first stored room with the room's id by the room and changes nothing else; with no room of that id, the store is unchanged |
| Juego.PrimerCodigoLibre | game_manager.py:92-96 | the chosen code is a candidate no stored room has, every draw before it is taken, it is the first draw when that is free, and there is none exactly when every draw is taken |
| Juego.AdmitirPreserva | game_manager.py:139-147 | joining refuses exactly a full room; otherwise a new player is appended as the last entry after the earlier players in order, a player already present leaves the room as it was, ids stay unique, the count stays within capacity, and nothing else of the room changes |
| Juego.IdSalaInyectiva | game_manager.py:99 | two room ids `sala_<ms>` are equal exactly when their timestamps are |
| Juego.Insertar | database.py:76-80 | storing a room appends it as the last entry unless a stored room already has its id; then the unique index on `id` refuses the write, `crear_sala` of the manager swallows the error and the store is unchanged |
| Juego.InsertarIdsUnicos | database.py:25 | storing keeps the stored room ids distinct; `CrearSala` uses it to keep this part of the invariant |
| Juego.ActualizarIdsUnicos | database.py:90-91 | an update by id keeps the length and every stored id, so the stored ids stay distinct |
| Juego.AdmitirDeNuevo | game_manager.py:139-143 | a player who joins again is not added twice, but is refused once the room is full |
| Juego.CancelarSoloSala | game_manager.py:283-287 | finishing a game touches only its own room's timer, and leaves that timer not pending |
| Juego.NuevoAdministrador | game_manager.py:15-28 | a new manager holds the merged pool, no active room, no connection and no timer, and satisfies the invariant |
| Juego.AdministradorJuego.constructor | game_manager.py:15-28 | the initial state for a given pool and store |
| Juego.AdministradorJuego.GenerarCodigoSala | game_manager.py:92-96 | the retry loop returns the first free draw, which is six upper-case letters or digits and is the code of no stored room |
| Juego.AdministradorJuego.CrearSala | game_manager.py:98-122 | a new waiting room holds only its host, who is the room's host; it is filed as active under id `sala_<ms>` with an empty connection list, and stored unless a stored room already has that id; nothing else changes; with no free code, nothing changes |
| Juego.AdministradorJuego.UnirSala | game_manager.py:128-154 | an unknown code changes nothing; otherwise the stored room is made active if it was not, a full room refuses the player, and otherwise the admitted room is filed, written back when the player was new, and the join is broadcast |
| Juego.AdministradorJuego.CargarSala | game_manager.py:133-135 | a stored room is made active only when no active room has its id, and gets an empty connection list only if it has none |
| Juego.AdministradorJuego.IniciarPartida | game_manager.py:160-204 | an unknown room changes nothing; fewer than two players only broadcasts the error; otherwise the room becomes the started round with the drawn phrase, the start is broadcast and the timer is restarted with the room's time limit |
| Juego.AdministradorJuego.DispararTemporizador | game_manager.py:206-227 | a timer that is not pending does nothing; a fired timer on a room that is gone or not playing does nothing more; otherwise the round is finished with the timeout winner, or an empty room raises; nobody is eliminated |
| Juego.AdministradorJuego.ProcesarEscritura | game_manager.py:233-270 | the room, messages, timer and exception are exactly those of the submission rules; a room that is not active is left alone |
| Juego.AdministradorJuego.Acertar | game_manager.py:243-252 | the matching branch, tied to the rules for a match |
| Juego.AdministradorJuego.Errar | game_manager.py:253-266 | the mismatching branch, tied to the rules for a mismatch |
| Juego.AdministradorJuego.CerrarRonda | game_manager.py:268-270 | the round is finished exactly when one player is still playing |
| Juego.AdministradorJuego.FinalizarPartida | game_manager.py:276-302 | only the room's status changes to "finalizada"; its pending timer is cancelled and the result is broadcast with one statistic per player |
| Juego.AdministradorJuego.TransmitirASala | game_manager.py:308-324 | a room without a connection entry is left alone; otherwise its list becomes the connections whose send succeeded, and each of them is sent the message once |
| Juego.AdministradorJuego.Conectar | routes_ws.py:15-17 | the WebSocket route appends the connection to the room's list, creating the list if it is missing |

## Left out

- Concurrency is not modelled. The source runs its handlers as `asyncio`
  coroutines; each model method runs to completion, with no interleaving.
  `unir_sala` schedules its broadcast with `create_task`; the model
  delivers it at once.
- The round timer's sleep and task objects are not modelled: the timer is a
  state per room, `Pendiente`, `Cancelado` or `Disparado`, and the end of
  the sleep is the method `DispararTemporizador`.
- Self-cancellation of the timer is not modelled. In the source, when the
  timer task itself calls `finalizar_partida`, the task cancels itself; the
  cancellation can surface at a later `await` inside `transmitir_a_sala`,
  where the bare `except` catches it and closes a connection. In the model
  a fired timer is `Disparado` and is not cancelled again.
- Send outcomes are fixed per operation: one oracle `ok` decides every send
  within a method call, so a connection that fails once fails for every
  message of that call.
- `ws.close()` and `print` logging are left out: they have no effect on
  the modelled state.
- Of the store exceptions that the source swallows (`try/except: pass`),
  only the refused insert of a room whose id is already stored is modelled,
  by `Juego.Insertar`. This happens when two rooms are created in the same
  millisecond. Any other failed store write is modelled as one that
  succeeds.
- Players are values, not shared objects. In the source the player objects
  of an active room and of its stored copy are separate after a load; the
  model keeps that separation, but it does not model aliasing in general.
- `progreso` is a float in models.py; the model uses an integer, because
  the source only ever assigns 0 and 100. `ppm` is a `real`, so
  floating-point rounding is not modelled.
- Juego.AdministradorJuego.GenerarCodigoSala: returns `None` when every
  supplied draw is taken, where the source keeps drawing forever; the draws
  are a finite list.
- The store is the list of room documents that `crear_sala`,
  `obtener_sala_por_codigo` and `actualizar_sala` use. The unique index on
  the room `id` is modelled, by `Juego.Insertar`. The MongoDB client, the
  other indexes (the unique `codigo` index among them, which a freshly drawn
  code never violates), the seeding and the player-statistics aggregation
  pipeline are not part of this model. The phrase query's answer is an
  input.
- A stored room is assumed to be well formed: unique player ids and no more
  players than its capacity. The initial store is assumed to hold no two
  rooms with the same id, as its unique index ensures. The store is outside
  the program.
- The `fecha_creacion` field that the store adds, MongoDB's `_id` and the
  `Partida` record are not modelled. Neither is a phrase document whose
  `texto`, `dificultad` or `categoria` is present but null. On a null
  `texto` the source raises at `strip()`; on a null `dificultad` or
  `categoria` the `Frase` record, whose fields are strings, refuses it.
- main.py (the HTTP routes and password hashing) is not part of this
  model, and neither are config.py and test_mongo.py.
- Only the connection registration of routes_ws.py is modelled, as
  `Conectar`.
  - The receive loop and its dispatch are not modelled.
  - The default of 1 second for `tiempo_tomado` is a caller's choice
    passed to `ProcesarEscritura`.
  - Removing a connection on disconnect is not modelled.
  - `unir_sala_ws`, `enviar_estado_sala` and `abandonar_sala` are called
    there but defined nowhere, so there is nothing to model.
- The default `max_jugadores = 10` of `crear_sala` is not modelled as a
  default: callers pass the capacity to `CrearSala`.
- Wall-clock time is an input: the room id's millisecond timestamp and the
  round's start time.
