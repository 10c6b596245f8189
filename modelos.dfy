/** The records and enumerations of the game (models.py): players, phrases,
    rooms, with the default values their fields take when a caller leaves
    them out. */
module Modelos {

  datatype Option<+T> = None | Some(value: T)

  /** A player's status within a room. */
  datatype EstadoJugador = CONECTADO | ESPERANDO | JUGANDO | ELIMINADO | GANADOR
  {
    /** The string each value stands for on the wire and in the store. */
    function Valor(): string {
      match this
      case CONECTADO => "conectado"
      case ESPERANDO => "esperando"
      case JUGANDO => "jugando"
      case ELIMINADO => "eliminado"
      case GANADOR => "ganador"
    }
  }

  datatype TipoSala = PUBLICA | PRIVADA
  {
    function Valor(): string {
      match this
      case PUBLICA => "publica"
      case PRIVADA => "privada"
    }
  }

  /** Every player status, once each. */
  const ESTADOS_JUGADOR: seq<EstadoJugador> := [CONECTADO, ESPERANDO, JUGANDO, ELIMINADO, GANADOR]

  const TIPOS_SALA: seq<TipoSala> := [PUBLICA, PRIVADA]

  /** The player enumeration has exactly five values, each with its own
      string. */
  lemma EstadosJugadorCompletos(e: EstadoJugador)
    ensures e in ESTADOS_JUGADOR && |ESTADOS_JUGADOR| == 5
    ensures forall i, j :: 0 <= i < j < 5 ==> ESTADOS_JUGADOR[i].Valor() != ESTADOS_JUGADOR[j].Valor()
  {
  }

  /** The room kind enumeration has exactly two values, each with its own
      string. */
  lemma TiposSalaCompletos(t: TipoSala)
    ensures t in TIPOS_SALA && |TIPOS_SALA| == 2
    ensures PUBLICA.Valor() != PRIVADA.Valor()
  {
  }

  /** A player. `progreso` stays an integer: the game only ever stores 0 or
      100 in it. `ppm` is a real standing for the source's float. */
  datatype Jugador = Jugador(
    id: string,
    nombre: string,
    avatar: string,
    estado: EstadoJugador,
    errores: int,
    ppm: real,
    progreso: int,
    conectado: bool)

  /** A player built from its three required fields; the others take their
      defaults. */
  function NuevoJugador(id: string, nombre: string, avatar: string): (j: Jugador)
    ensures j.id == id && j.nombre == nombre && j.avatar == avatar
    ensures j.estado == CONECTADO && j.errores == 0 && j.ppm == 0.0 && j.progreso == 0
    ensures j.conectado
  {
    Jugador(id, nombre, avatar, CONECTADO, 0, 0.0, 0, true)
  }

  datatype Frase = Frase(id: string, texto: string, dificultad: string, categoria: string)

  /** Room status strings. The field is a plain string in the source, so a
      room read back from the store may hold any value. */
  const ESPERANDO_SALA: string := "esperando"
  const JUGANDO_SALA: string := "jugando"
  const FINALIZADA_SALA: string := "finalizada"

  /** A room. `tiempoInicio` is a wall-clock instant in milliseconds. */
  datatype Sala = Sala(
    id: string,
    codigo: string,
    tipo: TipoSala,
    jugadores: seq<Jugador>,
    jugadorAnfitrion: string,
    maxJugadores: int,
    estado: string,
    rondaActual: int,
    fraseActual: Option<Frase>,
    tiempoInicio: Option<int>,
    tiempoLimite: int)

  /** A room built from its required fields; the others take their defaults. */
  function NuevaSala(id: string, codigo: string, tipo: TipoSala, jugadores: seq<Jugador>,
                     anfitrion: string, maxJugadores: int): (s: Sala)
    ensures s.id == id && s.codigo == codigo && s.tipo == tipo && s.jugadores == jugadores
    ensures s.jugadorAnfitrion == anfitrion && s.maxJugadores == maxJugadores
    ensures s.estado == ESPERANDO_SALA && s.rondaActual == 0
    ensures s.fraseActual == None && s.tiempoInicio == None && s.tiempoLimite == 45
  {
    Sala(id, codigo, tipo, jugadores, anfitrion, maxJugadores, ESPERANDO_SALA, 0, None, None, 45)
  }

  /** The ids of a list of players, in order. */
  function Ids(js: seq<Jugador>): (r: seq<string>)
    ensures |r| == |js| && forall k :: 0 <= k < |js| ==> r[k] == js[k].id
  {
    seq(|js|, k requires 0 <= k < |js| => js[k].id)
  }

  /** No two players of the list share an id. */
  predicate IdsUnicos(js: seq<Jugador>) {
    forall i, j :: 0 <= i < j < |js| ==> js[i].id != js[j].id
  }

  /** Whether some player of the list has the given id. */
  predicate TieneId(js: seq<Jugador>, id: string) {
    exists k :: 0 <= k < |js| && js[k].id == id
  }

  /** The most players a room can hold: its `max_jugadores`, except that a
      room is always created holding its host. */
  function Capacidad(s: Sala): int {
    if s.maxJugadores < 1 then 1 else s.maxJugadores
  }

  /** What joining keeps true of a room: no player twice, and no more players
      than its capacity. */
  predicate SalaValida(s: Sala) {
    IdsUnicos(s.jugadores) && |s.jugadores| <= Capacidad(s)
  }
}
