/** The messages the game broadcasts to the connections of a room
    (game_manager.py), and the two helpers that shape their payloads: the
    serialised player of `_serializar_jugador` and the per-player statistics
    of `finalizar_partida`. */
module Mensajes {
  import opened Modelos

  /** `_serializar_jugador`: the player fields sent to clients. The status is
      sent as its string value. */
  datatype JugadorSerializado = JugadorSerializado(
    id: string,
    nombre: string,
    avatar: string,
    ppm: real,
    progreso: int,
    errores: int,
    estado: string)

  /** One entry of the `estadisticas` list of `partida_finalizada`. */
  datatype Estadistica = Estadistica(id: string, nombre: string, ppm: real, errores: int, progreso: int)

  /** A broadcast message; each variant is one `tipo` of the wire format. */
  datatype Mensaje =
    | JugadorUnido(jugador: JugadorSerializado)
    | ErrorSala(mensaje: string)
    | PartidaIniciada(frase: string, tiempoLimite: int, rondaActual: int)
    | JugadorCompleto(jugadorId: string, ppm: real)
    | JugadorError(jugadorId: string, errores: int)
    | JugadorEliminado(jugadorId: string)
    | PartidaFinalizada(ganadorId: Option<string>, estadisticas: seq<Estadistica>)
  {
    /** The `tipo` field of the message. */
    function Tipo(): string {
      match this
      case JugadorUnido(_) => "jugador_unido"
      case ErrorSala(_) => "error"
      case PartidaIniciada(_, _, _) => "partida_iniciada"
      case JugadorCompleto(_, _) => "jugador_completo"
      case JugadorError(_, _) => "jugador_error"
      case JugadorEliminado(_) => "jugador_eliminado"
      case PartidaFinalizada(_, _) => "partida_finalizada"
    }
  }

  /** The message `iniciar_partida` sends to a room with too few players. */
  const MENSAJE_POCOS_JUGADORES: string := "Se necesitan al menos 2 jugadores"

  /** Messages of different kinds carry different `tipo` strings, so a client
      can tell every kind apart. */
  lemma TiposDistintos(a: Mensaje, b: Mensaje)
    requires a.Tipo() == b.Tipo()
    ensures a.JugadorUnido? == b.JugadorUnido? && a.ErrorSala? == b.ErrorSala?
    ensures a.PartidaIniciada? == b.PartidaIniciada? && a.JugadorCompleto? == b.JugadorCompleto?
    ensures a.JugadorError? == b.JugadorError? && a.JugadorEliminado? == b.JugadorEliminado?
    ensures a.PartidaFinalizada? == b.PartidaFinalizada?
  {
  }

  function Serializar(j: Jugador): JugadorSerializado {
    JugadorSerializado(j.id, j.nombre, j.avatar, j.ppm, j.progreso, j.errores, j.estado.Valor())
  }

  /** Serialisation drops exactly the `conectado` flag: two players serialise
      alike if and only if they differ in nothing else. */
  lemma SerializarOlvidaConectado(a: Jugador, b: Jugador)
    ensures Serializar(a) == Serializar(b) <==> a.(conectado := b.conectado) == b
  {
    if Serializar(a) == Serializar(b) {
      EstadosJugadorCompletos(a.estado);
      EstadosJugadorCompletos(b.estado);
    }
  }

  function EstadisticaDe(j: Jugador): Estadistica {
    Estadistica(j.id, j.nombre, j.ppm, j.errores, j.progreso)
  }

  /** The statistics list of `partida_finalizada`: one entry per player, in
      the order of the room's player list. */
  function Estadisticas(js: seq<Jugador>): (r: seq<Estadistica>)
    ensures |r| == |js| && forall k :: 0 <= k < |js| ==> r[k] == EstadisticaDe(js[k])
  {
    if js == [] then [] else [EstadisticaDe(js[0])] + Estadisticas(js[1..])
  }

  /** Statistics are taken player by player, so they distribute over
      concatenation. */
  lemma {:induction false} EstadisticasConcat(a: seq<Jugador>, b: seq<Jugador>)
    ensures Estadisticas(a + b) == Estadisticas(a) + Estadisticas(b)
  {
    if a != [] {
      assert (a + b)[1..] == a[1..] + b;
      EstadisticasConcat(a[1..], b);
    }
  }
}
