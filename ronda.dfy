/** The rules of a round, on room values (game_manager.py): resetting the
    players when a round starts, judging a submitted text, counting errors up
    to elimination, ending the round when one player is left playing, and
    choosing the winner when time runs out. */
module Ronda {
  import opened Texto
  import opened Modelos
  import opened Mensajes
  import opened Filtro

  /** A player as `iniciar_partida` leaves it: playing, with no progress, no
      speed and no errors. */
  function Reiniciado(j: Jugador): Jugador {
    j.(estado := JUGANDO, progreso := 0, ppm := 0.0, errores := 0)
  }

  function Reiniciados(js: seq<Jugador>): (r: seq<Jugador>)
    ensures |r| == |js| && forall k :: 0 <= k < |js| ==> r[k] == Reiniciado(js[k])
  {
    seq(|js|, k requires 0 <= k < |js| => Reiniciado(js[k]))
  }

  /** The room as `iniciar_partida` leaves it when it has enough players. */
  function Iniciada(s: Sala, frase: Frase, ahora: int): Sala {
    s.(estado := JUGANDO_SALA, rondaActual := s.rondaActual + 1, tiempoInicio := Some(ahora),
       fraseActual := Some(frase), jugadores := Reiniciados(s.jugadores))
  }

  /** Starting a round sets the room playing, advances the round by exactly
      one and sets its phrase; it resets every player and adds, removes or
      reorders none; nothing else of the room changes. */
  lemma IniciadaReinicia(s: Sala, frase: Frase, ahora: int)
    ensures var t := Iniciada(s, frase, ahora);
      && t.estado == JUGANDO_SALA && t.rondaActual == s.rondaActual + 1
      && t.fraseActual == Some(frase) && t.tiempoInicio == Some(ahora)
      && Ids(t.jugadores) == Ids(s.jugadores)
      && (forall k :: 0 <= k < |t.jugadores| ==>
            && t.jugadores[k].estado == JUGANDO && t.jugadores[k].progreso == 0
            && t.jugadores[k].ppm == 0.0 && t.jugadores[k].errores == 0
            && t.jugadores[k].(estado := s.jugadores[k].estado, progreso := s.jugadores[k].progreso,
                               ppm := s.jugadores[k].ppm, errores := s.jugadores[k].errores) == s.jugadores[k])
      && t.(jugadores := s.jugadores, estado := s.estado, rondaActual := s.rondaActual,
            tiempoInicio := s.tiempoInicio, fraseActual := s.fraseActual) == s
      && (SalaValida(s) ==> SalaValida(t))
  {
    MismosIds(s, Iniciada(s, frase, ahora));
  }

  /** The position of the first player with the given id, as `next(...)`
      finds it. */
  function Buscar(js: seq<Jugador>, id: string): (r: Option<nat>)
    ensures r.Some? ==> r.value < |js| && js[r.value].id == id && forall k :: 0 <= k < r.value ==> js[k].id != id
    ensures r.None? <==> !TieneId(js, id)
  {
    if js == [] then None
    else if js[0].id == id then Some(0)
    else match Buscar(js[1..], id)
      case None => None
      case Some(k) => Some(k + 1)
  }

  /** `j.estado == EstadoJugador.JUGANDO`, the test of the `vivos` filter. */
  predicate EnJuego(j: Jugador) {
    j.estado == JUGANDO
  }

  /** `j.progreso < 100`, the test of the `jugadores_vivos` filter. */
  predicate Incompleto(j: Jugador) {
    j.progreso < 100
  }

  /** How the time limit ends a round: with a winner, possibly none, or with
      an index error when the room has no player at all. */
  datatype Desenlace = Ganador(id: Option<string>) | IndiceFueraDeRango

  /** The winner `_monitor_tiempo_ronda` reports when time runs out. */
  function GanadorPorTiempo(js: seq<Jugador>): Desenlace {
    var vivos := Filtrar(js, Incompleto);
    if |vivos| == 1 then Ganador(Some(vivos[0].id))
    else if |vivos| == 0 then (if js == [] then IndiceFueraDeRango else Ganador(Some(js[0].id)))
    else Ganador(None)
  }

  /** The timeout winner is the single player who has not completed the
      phrase; when all have completed it, the first listed player; when two
      or more have not, nobody. */
  lemma GanadorPorTiempoCasos(js: seq<Jugador>)
    ensures forall k :: SoloEn(js, Incompleto, k) ==> GanadorPorTiempo(js) == Ganador(Some(js[k].id))
    ensures (forall k :: 0 <= k < |js| ==> !Incompleto(js[k])) ==>
      GanadorPorTiempo(js) == if js == [] then IndiceFueraDeRango else Ganador(Some(js[0].id))
    ensures (exists a, b :: 0 <= a < b < |js| && Incompleto(js[a]) && Incompleto(js[b])) ==>
      GanadorPorTiempo(js) == Ganador(None)
  {
    FiltrarUno(js, Incompleto);
    FiltrarVacio(js, Incompleto);
    if exists a, b :: 0 <= a < b < |js| && Incompleto(js[a]) && Incompleto(js[b]) {
      var a, b :| 0 <= a < b < |js| && Incompleto(js[a]) && Incompleto(js[b]);
      assert forall k :: !SoloEn(js, Incompleto, k);
    }
  }

  /** The room as `finalizar_partida` leaves it: only its status changes. */
  function Finalizada(s: Sala): Sala {
    s.(estado := FINALIZADA_SALA)
  }

  /** The `partida_finalizada` message for a room and a winner. */
  function MensajeFinal(s: Sala, ganador: Option<string>): Mensaje {
    PartidaFinalizada(ganador, Estadisticas(s.jugadores))
  }

  /** Whether a submitted text matches the phrase: both trimmed, then equal. */
  predicate Coincide(texto: string, frase: string) {
    Strip(texto) == Strip(frase)
  }

  /** Whitespace around either text never decides a match: a text matches
      exactly when its trimmed form does, and a phrase matches its own
      trimmed form. */
  lemma CoincideRecortado(texto: string, frase: string)
    ensures Coincide(Strip(texto), frase) <==> Coincide(texto, frase)
    ensures Coincide(texto, Strip(frase)) <==> Coincide(texto, frase)
    ensures Coincide(Strip(frase), frase)
  {
    StripIdempotent(texto);
    StripIdempotent(frase);
  }

  /** Words per minute: the phrase's words over the seconds taken, times 60. */
  function Ppm(frase: string, tiempo: real): real
    requires tiempo != 0.0
  {
    (WordCount(frase) as real / tiempo) * 60.0
  }

  /** The exceptions a handler can raise part way through: `frase_actual` is
      `None` (AttributeError), the time taken is zero (ZeroDivisionError), a
      timeout on a room with no players (IndexError). */
  datatype Fallo = SinFrase | DivisionPorCero | SinJugadores

  /** What a submission does to its room: the room afterwards, the messages
      broadcast, whether `finalizar_partida` ran, and the exception that cut
      the handler short, if any. */
  datatype Efecto = Efecto(sala: Sala, mensajes: seq<Mensaje>, finaliza: bool, fallo: Option<Fallo>)

  /** The end of `procesar_escritura`: when exactly one player is still
      playing, the round is finished with that player as winner. */
  function Cierre(s: Sala, msgs: seq<Mensaje>): Efecto {
    var vivos := Filtrar(s.jugadores, EnJuego);
    if |vivos| == 1 then Efecto(Finalizada(s), msgs + [MensajeFinal(Finalizada(s), Some(vivos[0].id))], true, None)
    else Efecto(s, msgs, false, None)
  }

  /** Closing after messages already sent appends the closing messages
      after them. */
  lemma CierreTras(s: Sala, msgs: seq<Mensaje>)
    ensures Cierre(s, msgs) == Cierre(s, []).(mensajes := msgs + Cierre(s, []).mensajes)
  {
    assert msgs + [] == msgs;
  }

  /** `procesar_escritura` on a room value. `acierto` says whether the
      submitted text matches the room's phrase (`Coincide`); it is consulted
      only once the phrase is known to exist, as the source reads
      `frase_actual.texto` before comparing. */
  function EfectoEscritura(s: Sala, jugadorId: string, acierto: bool, tiempo: real): Efecto {
    match Buscar(s.jugadores, jugadorId)
    case None => Efecto(s, [], false, None)
    case Some(k) =>
      if s.jugadores[k].estado != JUGANDO then Efecto(s, [], false, None)
      else if s.fraseActual.None? then Efecto(s, [], false, Some(SinFrase))
      else if acierto then Acierto(s, k, jugadorId, tiempo)
      else Errado(s, k, jugadorId)
  }

  /** The branch of `procesar_escritura` for a text matching the phrase. */
  function Acierto(s: Sala, k: nat, jugadorId: string, tiempo: real): Efecto
    requires k < |s.jugadores| && s.fraseActual.Some?
  {
    var completo := s.jugadores[k].(progreso := 100);
    if tiempo == 0.0 then Efecto(s.(jugadores := s.jugadores[k := completo]), [], false, Some(DivisionPorCero))
    else
      var ppm := Ppm(s.fraseActual.value.texto, tiempo);
      Cierre(s.(jugadores := s.jugadores[k := completo.(ppm := ppm)]), [JugadorCompleto(jugadorId, ppm)])
  }

  /** The branch of `procesar_escritura` for a text not matching the phrase. */
  function Errado(s: Sala, k: nat, jugadorId: string): Efecto
    requires k < |s.jugadores|
  {
    var errado := s.jugadores[k].(errores := s.jugadores[k].errores + 1);
    if errado.errores >= 3 then
      Cierre(s.(jugadores := s.jugadores[k := errado.(estado := ELIMINADO)]),
             [JugadorError(jugadorId, errado.errores), JugadorEliminado(jugadorId)])
    else
      Cierre(s.(jugadores := s.jugadores[k := errado]), [JugadorError(jugadorId, errado.errores)])
  }

  /** The round ends after a submission exactly when one player is left
      playing, and that player is the winner reported; otherwise the room and
      the messages are left as they are. */
  lemma CierreCasos(s: Sala, msgs: seq<Mensaje>)
    ensures var e := Cierre(s, msgs);
      && e.fallo == None
      && (e.finaliza <==> exists k :: SoloEn(s.jugadores, EnJuego, k))
      && (forall k :: SoloEn(s.jugadores, EnJuego, k) ==>
            e.sala == Finalizada(s) && e.mensajes == msgs + [MensajeFinal(s, Some(s.jugadores[k].id))])
      && (!e.finaliza ==> e.sala == s && e.mensajes == msgs)
  {
    FiltrarUno(s.jugadores, EnJuego);
  }

  /** The room and its players after a submission differ from before only in
      player `k` and, when the round ends, in the room's status. */
  predicate SoloCambiaJugador(s: Sala, t: Sala, k: nat) {
    && |t.jugadores| == |s.jugadores| && k < |s.jugadores|
    && (forall m :: 0 <= m < |s.jugadores| && m != k ==> t.jugadores[m] == s.jugadores[m])
    && t.(jugadores := s.jugadores, estado := s.estado) == s
    && (t.estado == s.estado || t.estado == FINALIZADA_SALA)
  }

  /** Closing after changing player `k` only changes player `k` and, maybe,
      the room's status. */
  lemma CierreSoloCambia(s: Sala, k: nat, j: Jugador, msgs: seq<Mensaje>)
    requires k < |s.jugadores|
    ensures var e := Cierre(s.(jugadores := s.jugadores[k := j]), msgs);
      SoloCambiaJugador(s, e.sala, k) && e.sala.jugadores[k] == j && e.fallo == None
      && |e.mensajes| >= |msgs| && e.mensajes[..|msgs|] == msgs
      && (e.finaliza <==> e.sala.estado == FINALIZADA_SALA && |e.mensajes| > |msgs|)
  {
    var t := s.(jugadores := s.jugadores[k := j]);
    CierreCasos(t, msgs);
    assert (msgs + [MensajeFinal(t, None)])[..|msgs|] == msgs;
    if Cierre(t, msgs).finaliza {
      var m :| SoloEn(t.jugadores, EnJuego, m);
      assert (msgs + [MensajeFinal(t, Some(t.jugadores[m].id))])[..|msgs|] == msgs;
    }
  }

  /** The two outcomes of a matching text, by the time taken. */
  lemma AciertoCasos(s: Sala, k: nat, jugadorId: string, tiempo: real)
    requires k < |s.jugadores| && s.fraseActual.Some?
    ensures var e := Acierto(s, k, jugadorId, tiempo);
      && SoloCambiaJugador(s, e.sala, k)
      && (tiempo == 0.0 ==>
            && e.fallo == Some(DivisionPorCero) && e.mensajes == [] && !e.finaliza
            && e.sala == s.(jugadores := s.jugadores[k := s.jugadores[k].(progreso := 100)]))
      && (tiempo != 0.0 ==>
            var ppm := Ppm(s.fraseActual.value.texto, tiempo);
            && e.fallo == None
            && e.sala.jugadores[k] == s.jugadores[k].(progreso := 100, ppm := ppm)
            && |e.mensajes| >= 1 && e.mensajes[0] == JugadorCompleto(jugadorId, ppm)
            && (e.finaliza <==> e.sala.estado == FINALIZADA_SALA && |e.mensajes| > 1))
  {
    if tiempo != 0.0 {
      var ppm := Ppm(s.fraseActual.value.texto, tiempo);
      CierreSoloCambia(s, k, s.jugadores[k].(progreso := 100, ppm := ppm), [JugadorCompleto(jugadorId, ppm)]);
    }
  }

  /** The two outcomes of a text not matching, by the errors reached. */
  lemma ErradoCasos(s: Sala, k: nat, jugadorId: string)
    requires k < |s.jugadores|
    ensures var e := Errado(s, k, jugadorId);
      var errores := s.jugadores[k].errores + 1;
      var eliminado := errores >= 3;
      && e.fallo == None && SoloCambiaJugador(s, e.sala, k)
      && e.sala.jugadores[k] == s.jugadores[k].(errores := errores,
           estado := if eliminado then ELIMINADO else s.jugadores[k].estado)
      && |e.mensajes| >= 1 && e.mensajes[0] == JugadorError(jugadorId, errores)
      && (eliminado ==> |e.mensajes| >= 2 && e.mensajes[1] == JugadorEliminado(jugadorId))
      && (e.finaliza <==> e.sala.estado == FINALIZADA_SALA && |e.mensajes| > (if eliminado then 2 else 1))
  {
    var j := s.jugadores[k];
    var errado := j.(errores := j.errores + 1);
    if errado.errores >= 3 {
      var msgs := [JugadorError(jugadorId, errado.errores), JugadorEliminado(jugadorId)];
      CierreSoloCambia(s, k, errado.(estado := ELIMINADO), msgs);
      var e := Errado(s, k, jugadorId);
      assert e.mensajes[..2] == msgs;
      assert e.mensajes[0] == msgs[0] && e.mensajes[1] == msgs[1];
    } else {
      var msgs := [JugadorError(jugadorId, errado.errores)];
      CierreSoloCambia(s, k, errado, msgs);
      var e := Errado(s, k, jugadorId);
      assert e.mensajes[..1] == msgs;
      assert e.mensajes[0] == msgs[0];
    }
  }

  /** A submission from a player who is not in the room, or whose first entry
      is not playing (an eliminated player, say), changes nothing and sends
      nothing. */
  lemma EscrituraIgnorada(s: Sala, jugadorId: string, acierto: bool, tiempo: real)
    requires forall k :: Buscar(s.jugadores, jugadorId) == Some(k) ==> s.jugadores[k].estado != JUGANDO
    ensures EfectoEscritura(s, jugadorId, acierto, tiempo) == Efecto(s, [], false, None)
  {
  }

  /** A playing player's submission to a room with no phrase raises before
      changing anything. */
  lemma EscrituraSinFrase(s: Sala, jugadorId: string, acierto: bool, tiempo: real, k: nat)
    requires Buscar(s.jugadores, jugadorId) == Some(k) && s.jugadores[k].estado == JUGANDO
    requires s.fraseActual == None
    ensures EfectoEscritura(s, jugadorId, acierto, tiempo) == Efecto(s, [], false, Some(SinFrase))
  {
  }

  /** A correct submission sets the player's progress to 100 and its speed to
      words per minute, and leaves its status (still playing) and its errors
      alone; it reports the completion first. */
  lemma EscrituraAcierto(s: Sala, jugadorId: string, acierto: bool, tiempo: real, k: nat)
    requires Buscar(s.jugadores, jugadorId) == Some(k) && s.jugadores[k].estado == JUGANDO
    requires s.fraseActual.Some? && acierto && tiempo != 0.0
    ensures var e := EfectoEscritura(s, jugadorId, acierto, tiempo);
      var ppm := Ppm(s.fraseActual.value.texto, tiempo);
      && e.fallo == None && SoloCambiaJugador(s, e.sala, k)
      && e.sala.jugadores[k] == s.jugadores[k].(progreso := 100, ppm := ppm)
      && e.sala.jugadores[k].estado == JUGANDO
      && |e.mensajes| >= 1 && e.mensajes[0] == JugadorCompleto(jugadorId, ppm)
  {
    assert EfectoEscritura(s, jugadorId, acierto, tiempo) == Acierto(s, k, jugadorId, tiempo);
    AciertoCasos(s, k, jugadorId, tiempo);
  }

  /** A correct submission never ends a round in which another player is
      still playing: the player who completed is still playing too. */
  lemma AciertoNoCierra(s: Sala, jugadorId: string, acierto: bool, tiempo: real, k: nat, otro: nat)
    requires Buscar(s.jugadores, jugadorId) == Some(k) && s.jugadores[k].estado == JUGANDO
    requires s.fraseActual.Some? && acierto && tiempo != 0.0
    requires otro < |s.jugadores| && otro != k && s.jugadores[otro].estado == JUGANDO
    ensures var e := EfectoEscritura(s, jugadorId, acierto, tiempo);
      !e.finaliza && e.sala.estado == s.estado && |e.mensajes| == 1
  {
    assert EfectoEscritura(s, jugadorId, acierto, tiempo) == Acierto(s, k, jugadorId, tiempo);
    var ppm := Ppm(s.fraseActual.value.texto, tiempo);
    var t := s.(jugadores := s.jugadores[k := s.jugadores[k].(progreso := 100, ppm := ppm)]);
    CierreCasos(t, [JugadorCompleto(jugadorId, ppm)]);
    forall m ensures !SoloEn(t.jugadores, EnJuego, m) {
      assert EnJuego(t.jugadores[k]) && EnJuego(t.jugadores[otro]);
    }
  }

  /** A correct submission with no time taken divides by zero after setting
      the progress to 100: that change stays, nothing is sent. */
  lemma EscrituraDivisionPorCero(s: Sala, jugadorId: string, acierto: bool, k: nat)
    requires Buscar(s.jugadores, jugadorId) == Some(k) && s.jugadores[k].estado == JUGANDO
    requires s.fraseActual.Some? && acierto
    ensures var e := EfectoEscritura(s, jugadorId, acierto, 0.0);
      && e.fallo == Some(DivisionPorCero) && e.mensajes == [] && !e.finaliza
      && e.sala == s.(jugadores := s.jugadores[k := s.jugadores[k].(progreso := 100)])
  {
    assert EfectoEscritura(s, jugadorId, acierto, 0.0) == Acierto(s, k, jugadorId, 0.0);
  }

  /** A wrong submission only counts one more error; the player is eliminated
      exactly when that makes three or more. Each is reported in turn. */
  lemma EscrituraError(s: Sala, jugadorId: string, acierto: bool, tiempo: real, k: nat)
    requires Buscar(s.jugadores, jugadorId) == Some(k) && s.jugadores[k].estado == JUGANDO
    requires s.fraseActual.Some? && !acierto
    ensures var e := EfectoEscritura(s, jugadorId, acierto, tiempo);
      var errores := s.jugadores[k].errores + 1;
      && e.fallo == None && SoloCambiaJugador(s, e.sala, k)
      && e.sala.jugadores[k] == s.jugadores[k].(errores := errores, estado := e.sala.jugadores[k].estado)
      && (e.sala.jugadores[k].estado == ELIMINADO <==> errores >= 3)
      && (e.sala.jugadores[k].estado == JUGANDO <==> errores < 3)
      && |e.mensajes| >= 1 && e.mensajes[0] == JugadorError(jugadorId, errores)
      && (errores >= 3 ==> |e.mensajes| >= 2 && e.mensajes[1] == JugadorEliminado(jugadorId))
  {
    assert EfectoEscritura(s, jugadorId, acierto, tiempo) == Errado(s, k, jugadorId);
    ErradoCasos(s, k, jugadorId);
  }

  /** What closing a round after a submission promises of its effect: the
      room is finished only without a failure; after a processed submission
      the round is over exactly when one player is left playing, and then the
      last message names that player the winner. */
  ghost predicate CierraConGanador(e: Efecto) {
    && (e.finaliza ==> e.fallo == None && e.sala.estado == FINALIZADA_SALA)
    && (e.fallo == None && e.mensajes != [] ==> (e.finaliza <==> exists k :: SoloEn(e.sala.jugadores, EnJuego, k)))
    && (forall k :: e.finaliza && SoloEn(e.sala.jugadores, EnJuego, k) ==>
          e.mensajes != [] && e.mensajes[|e.mensajes| - 1] == MensajeFinal(e.sala, Some(e.sala.jugadores[k].id)))
  }

  /** After a submission, the round is over exactly when one player is left
      playing, and the last message names that player the winner. */
  lemma EscrituraUltimoEnPie(s: Sala, jugadorId: string, acierto: bool, tiempo: real)
    ensures CierraConGanador(EfectoEscritura(s, jugadorId, acierto, tiempo))
  {
    match Buscar(s.jugadores, jugadorId)
    case None =>
    case Some(k) =>
      if s.jugadores[k].estado == JUGANDO && s.fraseActual.Some? {
        var j := s.jugadores[k];
        if acierto {
          assert EfectoEscritura(s, jugadorId, acierto, tiempo) == Acierto(s, k, jugadorId, tiempo);
          if tiempo != 0.0 {
            var ppm := Ppm(s.fraseActual.value.texto, tiempo);
            UltimoEnPie(s, k, j.(progreso := 100, ppm := ppm), [JugadorCompleto(jugadorId, ppm)]);
          }
        } else {
          assert EfectoEscritura(s, jugadorId, acierto, tiempo) == Errado(s, k, jugadorId);
          var errado := j.(errores := j.errores + 1);
          if errado.errores >= 3 {
            UltimoEnPie(s, k, errado.(estado := ELIMINADO), [JugadorError(jugadorId, errado.errores), JugadorEliminado(jugadorId)]);
          } else {
            UltimoEnPie(s, k, errado, [JugadorError(jugadorId, errado.errores)]);
          }
        }
      }
  }

  /** A proof step only: closing after changing one player, with messages
      already sent, keeps the promise of `CierraConGanador`. */
  lemma UltimoEnPie(s: Sala, k: nat, j: Jugador, msgs: seq<Mensaje>)
    requires k < |s.jugadores| && msgs != []
    ensures CierraConGanador(Cierre(s.(jugadores := s.jugadores[k := j]), msgs))
  {
    CierreCasos(s.(jugadores := s.jugadores[k := j]), msgs);
  }

  /** Changing players in place without touching their ids keeps a room
      well formed. */
  lemma MismosIds(s: Sala, t: Sala)
    requires |t.jugadores| == |s.jugadores| && t.maxJugadores == s.maxJugadores
    requires forall m :: 0 <= m < |s.jugadores| ==> t.jugadores[m].id == s.jugadores[m].id
    ensures Ids(t.jugadores) == Ids(s.jugadores) && (SalaValida(s) ==> SalaValida(t))
  {
    assert forall m :: 0 <= m < |s.jugadores| ==> Ids(t.jugadores)[m] == Ids(s.jugadores)[m];
  }

  /** A submission keeps a room well formed: it never adds, removes or
      renames a player. */
  lemma EscrituraPreservaValida(s: Sala, jugadorId: string, acierto: bool, tiempo: real)
    ensures var e := EfectoEscritura(s, jugadorId, acierto, tiempo);
      Ids(e.sala.jugadores) == Ids(s.jugadores) && (SalaValida(s) ==> SalaValida(e.sala))
  {
    var b := Buscar(s.jugadores, jugadorId);
    if b.None? || s.jugadores[b.value].estado != JUGANDO {
      EscrituraIgnorada(s, jugadorId, acierto, tiempo);
    } else if s.fraseActual.None? {
      EscrituraSinFrase(s, jugadorId, acierto, tiempo, b.value);
    } else if !acierto {
      EscrituraError(s, jugadorId, acierto, tiempo, b.value);
      MismosIds(s, EfectoEscritura(s, jugadorId, acierto, tiempo).sala);
    } else if tiempo == 0.0 {
      EscrituraDivisionPorCero(s, jugadorId, acierto, b.value);
      MismosIds(s, EfectoEscritura(s, jugadorId, acierto, tiempo).sala);
    } else {
      EscrituraAcierto(s, jugadorId, acierto, tiempo, b.value);
      MismosIds(s, EfectoEscritura(s, jugadorId, acierto, tiempo).sala);
    }
  }
}
