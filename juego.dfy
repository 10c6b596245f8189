/** The game manager `AdministradorJuego` (game_manager.py): the phrase pool,
    the active rooms, the connections of each room, one round timer per room
    and the room store, which its methods update. The store is a list of room
    documents; messages delivered to connections are recorded in `salida`. */
module Juego {
  import opened Texto
  import opened Modelos
  import opened Frases
  import opened Mensajes
  import opened Difusion
  import opened Ronda
  import opened Filtro

  /** The round timer of a room: sleeping for the given seconds, cancelled,
      or woken up. */
  datatype Monitor = Pendiente(segundos: int) | Cancelado | Disparado

  /** A room code as `_generar_codigo_sala` draws it: six characters, each an
      upper-case ASCII letter or a digit. */
  predicate CodigoValido(c: string) {
    |c| == 6 && forall i :: 0 <= i < |c| ==> ('A' <= c[i] <= 'Z' || '0' <= c[i] <= '9')
  }

  /** `obtener_sala_por_codigo`: the first stored room with the code. */
  function BuscarPorCodigo(db: seq<Sala>, codigo: string): (r: Option<Sala>)
    ensures r.Some? ==> r.value in db && r.value.codigo == codigo
    ensures r.None? <==> forall k :: 0 <= k < |db| ==> db[k].codigo != codigo
  {
    if db == [] then None
    else if db[0].codigo == codigo then Some(db[0])
    else BuscarPorCodigo(db[1..], codigo)
  }

  /** `actualizar_sala`: the first stored room with the room's id is
      replaced by it; the others stay. */
  function ActualizarPorId(db: seq<Sala>, s: Sala): (r: seq<Sala>)
    ensures (forall k :: 0 <= k < |db| ==> db[k].id != s.id) ==> r == db
    ensures forall k :: 0 <= k < |db| && db[k].id == s.id && (forall m :: 0 <= m < k ==> db[m].id != s.id) ==>
      r == db[k := s]
  {
    if db == [] then []
    else if db[0].id == s.id then
      assert [s] + db[1..] == db[0 := s];
      [s] + db[1..]
    else
      var rest := ActualizarPorId(db[1..], s);
      ActualizarCabeza(db, s, rest);
      [db[0]] + rest
  }

  /** The recursive step of `ActualizarPorId` when the first room does not
      match: a first match at `k` in `db` is one at `k - 1` in its tail. */
  lemma ActualizarCabeza(db: seq<Sala>, s: Sala, rest: seq<Sala>)
    requires db != [] && db[0].id != s.id
    requires (forall k :: 0 <= k < |db[1..]| ==> db[1..][k].id != s.id) ==> rest == db[1..]
    requires forall k :: 0 <= k < |db[1..]| && db[1..][k].id == s.id && (forall m :: 0 <= m < k ==> db[1..][m].id != s.id) ==>
      rest == db[1..][k := s]
    ensures (forall k :: 0 <= k < |db| ==> db[k].id != s.id) ==> [db[0]] + rest == db
    ensures forall k :: 0 <= k < |db| && db[k].id == s.id && (forall m :: 0 <= m < k ==> db[m].id != s.id) ==>
      [db[0]] + rest == db[k := s]
  {
    var t := db[1..];
    if forall k :: 0 <= k < |db| ==> db[k].id != s.id {
      forall k | 0 <= k < |t| ensures t[k].id != s.id {
        assert t[k] == db[k + 1];
      }
      assert [db[0]] + t == db;
    }
    forall k | 0 <= k < |db| && db[k].id == s.id && (forall m :: 0 <= m < k ==> db[m].id != s.id)
      ensures [db[0]] + rest == db[k := s]
    {
      assert k != 0;
      forall m | 0 <= m < k - 1 ensures t[m].id != s.id {
        assert t[m] == db[m + 1];
      }
      assert t[k - 1] == db[k];
      assert rest == t[k - 1 := s];
      assert [db[0]] + t[k - 1 := s] == db[k := s];
    }
  }

  /** Every code of the list is held by some stored room. */
  predicate Tomados(codigos: seq<string>, db: seq<Sala>) {
    forall m :: 0 <= m < |codigos| ==> BuscarPorCodigo(db, codigos[m]).Some?
  }

  /** Whether a stored room has the id. The store keeps ids unique, so
      inserting a room with a stored id fails. */
  predicate IdAlmacenado(db: seq<Sala>, id: string) {
    exists k :: 0 <= k < |db| && db[k].id == id
  }

  /** `crear_sala` of the store: the room is inserted unless a stored room
      already has its id, in which case the unique index on `id` makes the
      insert fail and nothing is stored. */
  function Insertar(db: seq<Sala>, s: Sala): (r: seq<Sala>)
    ensures db <= r && |r| <= |db| + 1
    ensures |r| == |db| + 1 <==> !IdAlmacenado(db, s.id)
    ensures |r| == |db| + 1 ==> r[|db|] == s
    ensures s in r <==> s in db || !IdAlmacenado(db, s.id)
  {
    if IdAlmacenado(db, s.id) then db else db + [s]
  }

  /** No two stored rooms share an id: what the unique index on `id`
      guarantees of the store. */
  predicate SalasIdsUnicos(db: seq<Sala>) {
    forall i, j :: 0 <= i < j < |db| ==> db[i].id != db[j].id
  }

  /** Inserting never makes two stored rooms share an id. */
  lemma InsertarIdsUnicos(db: seq<Sala>, s: Sala)
    requires SalasIdsUnicos(db)
    ensures SalasIdsUnicos(Insertar(db, s))
  {
  }

  /** A proof step only: a taken first draw followed by taken draws in the
      tail makes a longer run of taken draws. */
  lemma TomadosTrasPrimero(candidatos: seq<string>, db: seq<Sala>, i: nat)
    requires i < |candidatos| - 1 && BuscarPorCodigo(db, candidatos[0]).Some?
    requires Tomados(candidatos[1..][..i], db)
    ensures candidatos[i + 1] == candidatos[1..][i] && Tomados(candidatos[..i + 1], db)
  {
    assert candidatos[..i + 1] == [candidatos[0]] + candidatos[1..][..i];
  }

  /** The code the retry loop settles on: the first candidate no stored room
      has, if any. */
  function PrimerCodigoLibre(candidatos: seq<string>, db: seq<Sala>): (r: Option<string>)
    ensures r.Some? ==> r.value in candidatos && BuscarPorCodigo(db, r.value).None?
    ensures r.None? <==> forall i :: 0 <= i < |candidatos| ==> BuscarPorCodigo(db, candidatos[i]).Some?
    ensures r.Some? && candidatos != [] && BuscarPorCodigo(db, candidatos[0]).None? ==> r.value == candidatos[0]
    ensures r.Some? ==> exists i :: 0 <= i < |candidatos| && candidatos[i] == r.value && Tomados(candidatos[..i], db)
  {
    if candidatos == [] then None
    else if BuscarPorCodigo(db, candidatos[0]).None? then Some(candidatos[0])
    else
      var r := PrimerCodigoLibre(candidatos[1..], db);
      assert forall m :: 1 <= m < |candidatos| ==> candidatos[m] == candidatos[1..][m - 1];
      if r.Some? then
        var i :| 0 <= i < |candidatos[1..]| && candidatos[1..][i] == r.value && Tomados(candidatos[1..][..i], db);
        TomadosTrasPrimero(candidatos, db, i);
        r
      else r
  }

  /** The id `crear_sala` gives a room created at the given instant, in
      milliseconds. */
  function IdSala(instante: nat): string {
    "sala_" + Decimal(instante)
  }

  /** Rooms created at different instants get different ids. */
  lemma IdSalaInyectiva(a: nat, b: nat)
    ensures IdSala(a) == IdSala(b) <==> a == b
  {
    if IdSala(a) == IdSala(b) {
      assert IdSala(a)[5..] == Decimal(a);
      assert IdSala(b)[5..] == Decimal(b);
      DecimalInjective(a, b);
    }
  }

  /** The capacity check and the de-duplication of `unir_sala`: a full room
      admits nobody; otherwise the player is appended unless a player with
      the same id is already in. */
  function Admitir(s: Sala, j: Jugador): Option<Sala> {
    if |s.jugadores| >= s.maxJugadores then None
    else if TieneId(s.jugadores, j.id) then Some(s)
    else Some(s.(jugadores := s.jugadores + [j]))
  }

  /** Joining refuses exactly a full room; otherwise the player is in the
      room afterwards, the players before are kept in order, at most one is
      added, and ids stay unique within capacity. */
  lemma AdmitirPreserva(s: Sala, j: Jugador)
    requires SalaValida(s)
    ensures Admitir(s, j).None? <==> |s.jugadores| >= s.maxJugadores
    ensures Admitir(s, j).Some? ==>
      var t := Admitir(s, j).value;
      && SalaValida(t) && |t.jugadores| <= t.maxJugadores && TieneId(t.jugadores, j.id)
      && t.jugadores[..|s.jugadores|] == s.jugadores
      && |t.jugadores| == |s.jugadores| + (if TieneId(s.jugadores, j.id) then 0 else 1)
      && t.(jugadores := s.jugadores) == s
    ensures Admitir(s, j).Some? && !TieneId(s.jugadores, j.id) ==> Admitir(s, j).value.jugadores == s.jugadores + [j]
    ensures Admitir(s, j).Some? && TieneId(s.jugadores, j.id) ==> Admitir(s, j).value == s
  {
    if Admitir(s, j).Some? && !TieneId(s.jugadores, j.id) {
      var t := Admitir(s, j).value;
      assert t.jugadores[|s.jugadores|] == j;
      assert t.jugadores[..|s.jugadores|] == s.jugadores;
    }
  }

  /** Joining again is harmless while the room has room: the player is not
      added twice. Because capacity is checked before membership, a player
      already in a full room is refused like anyone else. */
  lemma AdmitirDeNuevo(s: Sala, j: Jugador)
    requires SalaValida(s) && Admitir(s, j).Some?
    ensures var t := Admitir(s, j).value;
      && (|t.jugadores| < t.maxJugadores ==> Admitir(t, j) == Some(t))
      && (|t.jugadores| >= t.maxJugadores ==> Admitir(t, j).None?)
  {
    AdmitirPreserva(s, j);
  }

  /** The active rooms once `unir_sala` has made sure the stored room is
      among them: an active room with its id is kept as it is. */
  function Cargada(salas: map<string, Sala>, db: Sala): map<string, Sala> {
    if db.id in salas then salas else salas[db.id := db]
  }

  /** The connections once `unir_sala` has loaded a stored room: an empty
      list is added only for a room it loads and that has none. */
  function ConexionesCargadas(salas: map<string, Sala>, conns: map<string, seq<Canal>>, id: string): map<string, seq<Canal>> {
    if id !in salas && id !in conns then conns[id := []] else conns
  }

  /** What `finalizar_partida` does to the timers: the room's pending timer,
      if any, is cancelled. */
  function Cancelar(ms: map<string, Monitor>, id: string): map<string, Monitor> {
    if id in ms && ms[id].Pendiente? then ms[id := Cancelado] else ms
  }

  /** `__init__`: the phrase pool is loaded from the answer of the store;
      no room is active yet. */
  method NuevoAdministrador(consulta: Consulta, almacenInicial: seq<Sala>) returns (a: AdministradorJuego)
    requires forall k :: 0 <= k < |almacenInicial| ==> SalaValida(almacenInicial[k])
    requires SalasIdsUnicos(almacenInicial)
    ensures fresh(a) && a.Valid()
    ensures a.frasesTerror == Mezcla(consulta) && a.almacen == almacenInicial
    ensures a.salasActivas == map[] && a.conexiones == map[] && a.monitores == map[] && a.salida == []
  {
    var frases := CargarFrasesMezcladas(consulta);
    a := new AdministradorJuego(frases, almacenInicial);
  }

  /** Cancelling touches at most the room's own timer, and leaves it not
      pending. */
  lemma CancelarSoloSala(ms: map<string, Monitor>, id: string)
    ensures Cancelar(ms, id).Keys == ms.Keys
    ensures forall otro :: otro in ms && otro != id ==> Cancelar(ms, id)[otro] == ms[otro]
    ensures id in ms ==> !Cancelar(ms, id)[id].Pendiente?
    ensures id in ms && !ms[id].Pendiente? ==> Cancelar(ms, id) == ms
  {
  }

  /** Filing a room twice under the same id keeps only the second.
      A proof step only: stated on its own so that the methods using it stay cheap to verify. */
  lemma ReemplazoDoble(m: map<string, Sala>, id: string, a: Sala, b: Sala)
    ensures m[id := a][id := b] == m[id := b]
  {
  }

  /** Recording deliveries in two steps records them in order.
      A proof step only: stated on its own so that the methods using it stay cheap to verify. */
  lemma EnOrden(a: seq<Envio>, b: seq<Envio>, c: seq<Envio>)
    ensures a + b + c == a + (b + c)
  {
  }

  /** Filing a room again as it is changes nothing.
      A proof step only: stated on its own so that the methods using it stay cheap to verify. */
  lemma ReemplazoIdentico(m: map<string, Sala>, id: string)
    requires id in m
    ensures m[id := m[id]] == m
  {
  }

  /** Broadcasting no message changes and delivers nothing.
      A proof step only: stated on its own so that the methods using it stay cheap to verify. */
  lemma SinMensajes(conns: map<string, seq<Canal>>, salida: seq<Envio>, salaId: string, ok: Canal -> bool)
    ensures Podadas(conns, salaId, ok, []) == conns
    ensures salida + Entregados(conns, salaId, ok, []) == salida
  {
    assert Entregados(conns, salaId, ok, []) == [];
  }

  /** An update by id keeps every stored room well formed. */
  lemma ActualizarValida(db: seq<Sala>, s: Sala)
    requires forall k :: 0 <= k < |db| ==> SalaValida(db[k])
    requires SalaValida(s)
    ensures forall k :: 0 <= k < |ActualizarPorId(db, s)| ==> SalaValida(ActualizarPorId(db, s)[k])
  {
    if exists k :: 0 <= k < |db| && db[k].id == s.id {
      var k := PrimeraConId(db, s.id);
      assert ActualizarPorId(db, s) == db[k := s];
    }
  }

  /** An update by id keeps the stored ids as they were, so keeps them
      distinct. */
  lemma ActualizarIdsUnicos(db: seq<Sala>, s: Sala)
    requires SalasIdsUnicos(db)
    ensures |ActualizarPorId(db, s)| == |db|
    ensures forall k :: 0 <= k < |db| ==> ActualizarPorId(db, s)[k].id == db[k].id
    ensures SalasIdsUnicos(ActualizarPorId(db, s))
  {
    if exists k :: 0 <= k < |db| && db[k].id == s.id {
      var k := PrimeraConId(db, s.id);
      assert ActualizarPorId(db, s) == db[k := s];
    }
  }

  /** The position of the first stored room with the given id. */
  function PrimeraConId(db: seq<Sala>, id: string): (k: nat)
    requires exists k :: 0 <= k < |db| && db[k].id == id
    ensures k < |db| && db[k].id == id && forall m :: 0 <= m < k ==> db[m].id != id
  {
    if db[0].id == id then 0
    else
      assert exists k :: 0 <= k < |db[1..]| && db[1..][k].id == id by {
        var j :| 0 <= j < |db| && db[j].id == id;
        assert db[1..][j - 1] == db[j];
      }
      var k := PrimeraConId(db[1..], id);
      assert db[1..][k] == db[k + 1];
      assert forall m :: 1 <= m <= k ==> db[m] == db[1..][m - 1];
      k + 1
  }

  /** A room holding just one player is well formed.
      A proof step only: stated on its own so that the methods using it stay cheap to verify. */
  lemma SalaDeUno(s: Sala)
    requires |s.jugadores| == 1
    ensures SalaValida(s)
  {
  }

  /** Storing a well-formed room keeps every stored room well formed.
      A proof step only: stated on its own so that the methods using it stay cheap to verify. */
  lemma InsertarValida(db: seq<Sala>, s: Sala)
    requires forall k :: 0 <= k < |db| ==> SalaValida(db[k])
    requires SalaValida(s)
    ensures forall k :: 0 <= k < |Insertar(db, s)| ==> SalaValida(Insertar(db, s)[k])
  {
  }

  class AdministradorJuego {
    var frasesTerror: seq<Frase>
    var salasActivas: map<string, Sala>
    var conexiones: map<string, seq<Canal>>
    var monitores: map<string, Monitor>
    var almacen: seq<Sala>
    var salida: seq<Envio>

    /** The pool can always serve a phrase; every active room is filed under
        its own id; every room, active or stored, has unique player ids and
        respects its capacity; no two stored rooms share an id. */
    predicate Valid()
      reads this
    {
      && frasesTerror != [] && TextosNoVacios(frasesTerror)
      && (forall id :: id in salasActivas ==> salasActivas[id].id == id && SalaValida(salasActivas[id]))
      && (forall k :: 0 <= k < |almacen| ==> SalaValida(almacen[k]))
      && SalasIdsUnicos(almacen)
    }

    /** The state `__init__` leaves, given the loaded phrase pool. */
    constructor(frases: seq<Frase>, almacenInicial: seq<Sala>)
      requires frases != [] && TextosNoVacios(frases)
      requires forall k :: 0 <= k < |almacenInicial| ==> SalaValida(almacenInicial[k])
      requires SalasIdsUnicos(almacenInicial)
      ensures Valid()
      ensures frasesTerror == frases && almacen == almacenInicial
      ensures salasActivas == map[] && conexiones == map[] && monitores == map[] && salida == []
    {
      frasesTerror := frases;
      salasActivas := map[];
      conexiones := map[];
      monitores := map[];
      almacen := almacenInicial;
      salida := [];
    }

    /** `_generar_codigo_sala`, with the random draws supplied in order: the
        first candidate no stored room has. */
    method GenerarCodigoSala(candidatos: seq<string>) returns (codigo: Option<string>)
      requires forall i :: 0 <= i < |candidatos| ==> CodigoValido(candidatos[i])
      ensures codigo == PrimerCodigoLibre(candidatos, almacen)
      ensures codigo.Some? ==> CodigoValido(codigo.value) && forall k :: 0 <= k < |almacen| ==> almacen[k].codigo != codigo.value
    {
      var i := 0;
      while i < |candidatos|
        invariant 0 <= i <= |candidatos|
        invariant PrimerCodigoLibre(candidatos[i..], almacen) == PrimerCodigoLibre(candidatos, almacen)
      {
        assert candidatos[i..][1..] == candidatos[i + 1..];
        if BuscarPorCodigo(almacen, candidatos[i]).None? {
          return Some(candidatos[i]);
        }
        i := i + 1;
      }
      return None;
    }

    /** `crear_sala`: a new waiting room holding its host, filed as active
        with no connections and stored. */
    method CrearSala(anfitrion: Jugador, tipo: TipoSala, maxJugadores: int, instante: nat, candidatos: seq<string>)
      returns (sala: Option<Sala>)
      requires Valid()
      requires forall i :: 0 <= i < |candidatos| ==> CodigoValido(candidatos[i])
      modifies this
      ensures Valid()
      ensures var codigo := PrimerCodigoLibre(candidatos, old(almacen));
        if codigo.None? then sala.None? && unchanged(this)
        else
          && sala == Some(NuevaSala(IdSala(instante), codigo.value, tipo, [anfitrion], anfitrion.id, maxJugadores))
          && salasActivas == old(salasActivas)[IdSala(instante) := sala.value]
          && conexiones == old(conexiones)[IdSala(instante) := []]
          && almacen == Insertar(old(almacen), sala.value)
          && frasesTerror == old(frasesTerror) && monitores == old(monitores) && salida == old(salida)
    {
      var salaId := IdSala(instante);
      var codigo := GenerarCodigoSala(candidatos);
      // drawing a code leaves the phrase pool, the monitors and the deliveries alone
      assert frasesTerror == old(frasesTerror) && monitores == old(monitores) && salida == old(salida);
      if codigo.None? {
        return None;
      }
      var nueva := NuevaSala(salaId, codigo.value, tipo, [anfitrion], anfitrion.id, maxJugadores);
      SalaDeUno(nueva);
      InsertarValida(almacen, nueva);
      InsertarIdsUnicos(almacen, nueva);
      salasActivas := salasActivas[salaId := nueva];
      conexiones := conexiones[salaId := []];
      almacen := Insertar(almacen, nueva);
      sala := Some(nueva);
    }

    /** `unir_sala`: look the code up in the store, make that room active if
        it is not, then admit the player; a joined player is announced. */
    method UnirSala(jugador: Jugador, codigoSala: string, ok: Canal -> bool) returns (sala: Option<Sala>)
      requires Valid()
      modifies this
      ensures Valid()
      ensures frasesTerror == old(frasesTerror) && monitores == old(monitores)
      ensures old(BuscarPorCodigo(almacen, codigoSala)).None? ==> sala.None? && unchanged(this)
      ensures old(BuscarPorCodigo(almacen, codigoSala)).Some? ==>
        var db := old(BuscarPorCodigo(almacen, codigoSala)).value;
        var salas := Cargada(old(salasActivas), db);
        var conns := ConexionesCargadas(old(salasActivas), old(conexiones), db.id);
        var msg := JugadorUnido(Serializar(jugador));
        && sala == Admitir(salas[db.id], jugador)
        && (sala.None? ==>
              salasActivas == salas && conexiones == conns && almacen == old(almacen) && salida == old(salida))
        && (sala.Some? ==>
              && salasActivas == salas[db.id := sala.value]
              && almacen == (if TieneId(salas[db.id].jugadores, jugador.id) then old(almacen) else ActualizarPorId(old(almacen), sala.value))
              && conexiones == Podadas(conns, db.id, ok, [msg])
              && salida == old(salida) + Entregados(conns, db.id, ok, [msg]))
    {
      var encontrada := BuscarPorCodigo(almacen, codigoSala);
      if encontrada.None? {
        return None;
      }
      var db := encontrada.value;
      CargarSala(db);
      var activa := salasActivas[db.id];
      if |activa.jugadores| >= activa.maxJugadores {
        return None;
      }
      AdmitirPreserva(activa, jugador);
      if !TieneId(activa.jugadores, jugador.id) {
        activa := activa.(jugadores := activa.jugadores + [jugador]);
        salasActivas := salasActivas[db.id := activa];
        ActualizarValida(almacen, activa);
        ActualizarIdsUnicos(almacen, activa);
        almacen := ActualizarPorId(almacen, activa);
      } else {
        ReemplazoIdentico(salasActivas, db.id);
      }
      assert activa.id == db.id;
      TransmitirASala(activa.id, JugadorUnido(Serializar(jugador)), ok);
      sala := Some(activa);
    }

    /** The part of `unir_sala` that makes a stored room active when no
        active room has its id. */
    method CargarSala(db: Sala)
      requires Valid() && SalaValida(db)
      modifies this
      ensures Valid()
      ensures salasActivas == Cargada(old(salasActivas), db)
      ensures conexiones == ConexionesCargadas(old(salasActivas), old(conexiones), db.id)
      ensures frasesTerror == old(frasesTerror) && monitores == old(monitores)
      ensures almacen == old(almacen) && salida == old(salida)
    {
      if db.id !in salasActivas {
        salasActivas := salasActivas[db.id := db];
        if db.id !in conexiones {
          conexiones := conexiones[db.id := []];
        }
      }
    }

    /** `iniciar_partida`, with the index of the phrase `random.choice`
        draws and the current instant supplied. */
    method IniciarPartida(salaId: string, indice: nat, ahora: int, ok: Canal -> bool)
      requires Valid() && indice < |frasesTerror|
      modifies this
      ensures Valid()
      ensures frasesTerror == old(frasesTerror) && almacen == old(almacen)
      ensures salaId !in old(salasActivas) ==> unchanged(this)
      ensures salaId in old(salasActivas) && |old(salasActivas[salaId]).jugadores| < 2 ==>
        var msg := ErrorSala(MENSAJE_POCOS_JUGADORES);
        && salasActivas == old(salasActivas) && monitores == old(monitores)
        && conexiones == Podadas(old(conexiones), salaId, ok, [msg])
        && salida == old(salida) + Entregados(old(conexiones), salaId, ok, [msg])
      ensures salaId in old(salasActivas) && |old(salasActivas[salaId]).jugadores| >= 2 ==>
        var t := Iniciada(old(salasActivas[salaId]), old(frasesTerror[indice]), ahora);
        var msg := PartidaIniciada(old(frasesTerror[indice]).texto, t.tiempoLimite, t.rondaActual);
        && salasActivas == old(salasActivas)[salaId := t]
        && monitores == old(monitores)[salaId := Pendiente(t.tiempoLimite)]
        && conexiones == Podadas(old(conexiones), salaId, ok, [msg])
        && salida == old(salida) + Entregados(old(conexiones), salaId, ok, [msg])
    {
      if salaId !in salasActivas {
        return;
      }
      var sala := salasActivas[salaId];
      if |sala.jugadores| < 2 {
        TransmitirASala(salaId, ErrorSala(MENSAJE_POCOS_JUGADORES), ok);
        return;
      }
      var frase := frasesTerror[indice];
      sala := sala.(estado := JUGANDO_SALA, rondaActual := sala.rondaActual + 1, tiempoInicio := Some(ahora),
                    fraseActual := Some(frase));
      ghost var antes := sala.jugadores;
      var js := sala.jugadores;
      var k := 0;
      while k < |js|
        invariant 0 <= k <= |js| == |antes|
        invariant forall m :: 0 <= m < k ==> js[m] == Reiniciado(antes[m])
        invariant forall m :: k <= m < |js| ==> js[m] == antes[m]
      {
        js := js[k := js[k].(estado := JUGANDO, progreso := 0, ppm := 0.0, errores := 0)];
        k := k + 1;
      }
      assert js == Reiniciados(antes);
      sala := sala.(jugadores := js);
      assert sala == Iniciada(old(salasActivas[salaId]), frase, ahora);
      IniciadaReinicia(old(salasActivas[salaId]), frase, ahora);
      salasActivas := salasActivas[salaId := sala];
      TransmitirASala(salaId, PartidaIniciada(frase.texto, sala.tiempoLimite, sala.rondaActual), ok);
      monitores := monitores[salaId := Pendiente(sala.tiempoLimite)];
    }

    /** The half of `_monitor_tiempo_ronda` after its sleep ends: a timer
        that was cancelled does nothing; otherwise, if the room is still
        playing, the round ends with the winner by progress. Nobody is
        eliminated. The result is the exception raised, if any. */
    method DispararTemporizador(salaId: string, ok: Canal -> bool) returns (fallo: Option<Fallo>)
      requires Valid()
      modifies this
      ensures Valid()
      ensures frasesTerror == old(frasesTerror) && almacen == old(almacen)
      ensures !(salaId in old(monitores) && old(monitores[salaId]).Pendiente?) ==> fallo.None? && unchanged(this)
      ensures salaId in old(monitores) && old(monitores[salaId]).Pendiente? ==>
        monitores == old(monitores)[salaId := Disparado]
      ensures salaId in old(monitores) && old(monitores[salaId]).Pendiente? &&
              (salaId !in old(salasActivas) || old(salasActivas[salaId]).estado != JUGANDO_SALA) ==>
        && fallo.None? && salasActivas == old(salasActivas)
        && conexiones == old(conexiones) && salida == old(salida)
      ensures salaId in old(monitores) && old(monitores[salaId]).Pendiente? &&
              salaId in old(salasActivas) && old(salasActivas[salaId]).estado == JUGANDO_SALA ==>
        var s := old(salasActivas[salaId]);
        match GanadorPorTiempo(s.jugadores)
        case IndiceFueraDeRango =>
          && fallo == Some(SinJugadores) && salasActivas == old(salasActivas)
          && conexiones == old(conexiones) && salida == old(salida)
        case Ganador(g) =>
          && fallo.None? && salasActivas == old(salasActivas)[salaId := Finalizada(s)]
          && conexiones == Podadas(old(conexiones), salaId, ok, [MensajeFinal(s, g)])
          && salida == old(salida) + Entregados(old(conexiones), salaId, ok, [MensajeFinal(s, g)])
    {
      if salaId !in monitores || !monitores[salaId].Pendiente? {
        return None;
      }
      monitores := monitores[salaId := Disparado];
      if salaId !in salasActivas {
        return None;
      }
      var sala := salasActivas[salaId];
      if sala.estado != JUGANDO_SALA {
        return None;
      }
      var desenlace := GanadorPorTiempo(sala.jugadores);
      if desenlace.IndiceFueraDeRango? {
        return Some(SinJugadores);
      }
      FinalizarPartida(salaId, desenlace.id, ok);
      fallo := None;
    }

    /** `procesar_escritura`, with the seconds taken as a real. The result is
        the exception raised, if any. */
    method ProcesarEscritura(jugadorId: string, salaId: string, texto: string, tiempo: real, ok: Canal -> bool)
      returns (fallo: Option<Fallo>)
      requires Valid()
      modifies this
      ensures Valid()
      ensures frasesTerror == old(frasesTerror) && almacen == old(almacen)
      ensures salaId !in old(salasActivas) ==> fallo.None? && unchanged(this)
      ensures salaId in old(salasActivas) ==>
        var s := old(salasActivas[salaId]);
        var e := EfectoEscritura(s, jugadorId, s.fraseActual.Some? && Coincide(texto, s.fraseActual.value.texto), tiempo);
        && fallo == e.fallo
        && salasActivas == old(salasActivas)[salaId := e.sala]
        && monitores == (if e.finaliza then Cancelar(old(monitores), salaId) else old(monitores))
        && conexiones == Podadas(old(conexiones), salaId, ok, e.mensajes)
        && salida == old(salida) + Entregados(old(conexiones), salaId, ok, e.mensajes)
    {
      if salaId !in salasActivas {
        return None;
      }
      var sala := salasActivas[salaId];
      ghost var acierto := sala.fraseActual.Some? && Coincide(texto, sala.fraseActual.value.texto);
      var posicion := Buscar(sala.jugadores, jugadorId);
      if posicion.None? || sala.jugadores[posicion.value].estado != JUGANDO {
        EscrituraIgnorada(sala, jugadorId, acierto, tiempo);
        ReemplazoIdentico(salasActivas, salaId);
        SinMensajes(conexiones, salida, salaId, ok);
        return None;
      }
      var k := posicion.value;
      if sala.fraseActual.None? {
        EscrituraSinFrase(sala, jugadorId, acierto, tiempo, k);
        ReemplazoIdentico(salasActivas, salaId);
        SinMensajes(conexiones, salida, salaId, ok);
        return Some(SinFrase);
      }
      if Coincide(texto, sala.fraseActual.value.texto) {
        assert EfectoEscritura(sala, jugadorId, acierto, tiempo) == Acierto(sala, k, jugadorId, tiempo);
        fallo := Acertar(salaId, k, jugadorId, tiempo, ok);
      } else {
        assert EfectoEscritura(sala, jugadorId, acierto, tiempo) == Errado(sala, k, jugadorId);
        Errar(salaId, k, jugadorId, ok);
        ErradoCasos(sala, k, jugadorId);
        fallo := None;
      }
    }

    /** The branch of `procesar_escritura` for a matching text, on the
        player at position `k`. */
    method Acertar(salaId: string, k: nat, jugadorId: string, tiempo: real, ok: Canal -> bool)
      returns (fallo: Option<Fallo>)
      requires Valid() && salaId in salasActivas
      requires k < |salasActivas[salaId].jugadores| && salasActivas[salaId].fraseActual.Some?
      modifies this
      ensures Valid()
      ensures frasesTerror == old(frasesTerror) && almacen == old(almacen)
      ensures var e := Acierto(old(salasActivas[salaId]), k, jugadorId, tiempo);
        && fallo == e.fallo
        && salasActivas == old(salasActivas)[salaId := e.sala]
        && monitores == (if e.finaliza then Cancelar(old(monitores), salaId) else old(monitores))
        && conexiones == Podadas(old(conexiones), salaId, ok, e.mensajes)
        && salida == old(salida) + Entregados(old(conexiones), salaId, ok, e.mensajes)
    {
      var sala := salasActivas[salaId];
      var fraseCorrecta := sala.fraseActual.value.texto;
      var jugador := sala.jugadores[k].(progreso := 100);
      sala := sala.(jugadores := sala.jugadores[k := jugador]);
      MismosIds(old(salasActivas[salaId]), sala);
      salasActivas := salasActivas[salaId := sala];
      if tiempo == 0.0 {
        return Some(DivisionPorCero);
      }
      var palabras := |Split(fraseCorrecta)|;
      jugador := jugador.(ppm := (palabras as real / tiempo) * 60.0);
      assert jugador == old(salasActivas[salaId]).jugadores[k].(progreso := 100, ppm := Ppm(fraseCorrecta, tiempo));
      sala := sala.(jugadores := sala.jugadores[k := jugador]);
      assert sala.jugadores == old(salasActivas[salaId]).jugadores[k := jugador];
      MismosIds(old(salasActivas[salaId]), sala);
      salasActivas := salasActivas[salaId := sala];
      ghost var c0 := conexiones;
      ghost var m := [JugadorCompleto(jugadorId, jugador.ppm)];
      assert salasActivas == old(salasActivas)[salaId := sala];
      assert Acierto(old(salasActivas[salaId]), k, jugadorId, tiempo) == Cierre(sala, m);
      TransmitirASala(salaId, JugadorCompleto(jugadorId, jugador.ppm), ok);
      CerrarRonda(salaId, ok);
      CierreTras(sala, m);
      DifundirSeguidos(c0, salaId, ok, m, Cierre(sala, []).mensajes);
      ghost var e := Acierto(old(salasActivas[salaId]), k, jugadorId, tiempo);
      assert e.sala == Cierre(sala, []).sala && e.finaliza == Cierre(sala, []).finaliza;
      assert e.mensajes == m + Cierre(sala, []).mensajes;
      assert salasActivas == old(salasActivas)[salaId := sala][salaId := e.sala];
      ReemplazoDoble(old(salasActivas), salaId, sala, e.sala);
      assert monitores == (if e.finaliza then Cancelar(old(monitores), salaId) else old(monitores));
      assert conexiones == Podadas(old(conexiones), salaId, ok, e.mensajes);
      ghost var d1 := Entregados(c0, salaId, ok, m);
      ghost var d2 := Entregados(Podadas(c0, salaId, ok, m), salaId, ok, Cierre(sala, []).mensajes);
      assert salida == old(salida) + d1 + d2;
      EnOrden(old(salida), d1, d2);
      fallo := None;
    }

    /** The branch of `procesar_escritura` for a text that does not match,
        on the player at position `k`. */
    method Errar(salaId: string, k: nat, jugadorId: string, ok: Canal -> bool)
      requires Valid() && salaId in salasActivas && k < |salasActivas[salaId].jugadores|
      modifies this
      ensures Valid()
      ensures frasesTerror == old(frasesTerror) && almacen == old(almacen)
      ensures var e := Errado(old(salasActivas[salaId]), k, jugadorId);
        && salasActivas == old(salasActivas)[salaId := e.sala]
        && monitores == (if e.finaliza then Cancelar(old(monitores), salaId) else old(monitores))
        && conexiones == Podadas(old(conexiones), salaId, ok, e.mensajes)
        && salida == old(salida) + Entregados(old(conexiones), salaId, ok, e.mensajes)
    {
      var sala := salasActivas[salaId];
      ghost var s0 := sala;
      ghost var c0 := conexiones;
      var jugador := sala.jugadores[k].(errores := sala.jugadores[k].errores + 1);
      sala := sala.(jugadores := sala.jugadores[k := jugador]);
      MismosIds(s0, sala);
      salasActivas := salasActivas[salaId := sala];
      TransmitirASala(salaId, JugadorError(jugadorId, jugador.errores), ok);
      ghost var msgs := [JugadorError(jugadorId, jugador.errores)];
      ghost var d := Entregados(c0, salaId, ok, msgs);
      if jugador.errores >= 3 {
        ghost var s1 := sala;
        jugador := jugador.(estado := ELIMINADO);
        sala := sala.(jugadores := sala.jugadores[k := jugador]);
        assert sala.jugadores == s0.jugadores[k := jugador];
        MismosIds(s0, sala);
        salasActivas := salasActivas[salaId := sala];
        ReemplazoDoble(old(salasActivas), salaId, s1, sala);
        ghost var c1 := conexiones;
        TransmitirASala(salaId, JugadorEliminado(jugadorId), ok);
        DifundirSeguidos(c0, salaId, ok, msgs, [JugadorEliminado(jugadorId)]);
        EnOrden(old(salida), d, Entregados(c1, salaId, ok, [JugadorEliminado(jugadorId)]));
        d := d + Entregados(c1, salaId, ok, [JugadorEliminado(jugadorId)]);
        msgs := msgs + [JugadorEliminado(jugadorId)];
        assert msgs == [JugadorError(jugadorId, jugador.errores), JugadorEliminado(jugadorId)];
        assert sala == s0.(jugadores := s0.jugadores[k := jugador]);
        assert Errado(s0, k, jugadorId) == Cierre(sala, msgs);
      } else {
        assert Errado(s0, k, jugadorId) == Cierre(sala, msgs);
      }
      assert salasActivas == old(salasActivas)[salaId := sala];
      ghost var c2 := conexiones;
      CerrarRonda(salaId, ok);
      CierreTras(sala, msgs);
      DifundirSeguidos(c0, salaId, ok, msgs, Cierre(sala, []).mensajes);
      ReemplazoDoble(old(salasActivas), salaId, sala, Cierre(sala, []).sala);
      EnOrden(old(salida), d, Entregados(c2, salaId, ok, Cierre(sala, []).mensajes));
    }

    /** The end of `procesar_escritura`: when exactly one player of the room
        is still playing, the round is finished with that player as winner. */
    method CerrarRonda(salaId: string, ok: Canal -> bool)
      requires Valid() && salaId in salasActivas
      modifies this
      ensures Valid()
      ensures frasesTerror == old(frasesTerror) && almacen == old(almacen)
      ensures var e := Cierre(old(salasActivas[salaId]), []);
        && salasActivas == old(salasActivas)[salaId := e.sala]
        && monitores == (if e.finaliza then Cancelar(old(monitores), salaId) else old(monitores))
        && conexiones == Podadas(old(conexiones), salaId, ok, e.mensajes)
        && salida == old(salida) + Entregados(old(conexiones), salaId, ok, e.mensajes)
    {
      var sala := salasActivas[salaId];
      var vivos := Filtrar(sala.jugadores, EnJuego);
      if |vivos| == 1 {
        FinalizarPartida(salaId, Some(vivos[0].id), ok);
        assert MensajeFinal(sala, Some(vivos[0].id)) == MensajeFinal(Finalizada(sala), Some(vivos[0].id));
      } else {
        assert Entregados(conexiones, salaId, ok, []) == [];
      }
    }

    /** `finalizar_partida`: the room is marked finished, its timer
        cancelled and the results broadcast; players are not touched. */
    method FinalizarPartida(salaId: string, ganadorId: Option<string>, ok: Canal -> bool)
      requires Valid()
      modifies this
      ensures Valid()
      ensures frasesTerror == old(frasesTerror) && almacen == old(almacen)
      ensures salaId !in old(salasActivas) ==> unchanged(this)
      ensures salaId in old(salasActivas) ==>
        var s := old(salasActivas[salaId]);
        && salasActivas == old(salasActivas)[salaId := Finalizada(s)]
        && monitores == Cancelar(old(monitores), salaId)
        && conexiones == Podadas(old(conexiones), salaId, ok, [MensajeFinal(s, ganadorId)])
        && salida == old(salida) + Entregados(old(conexiones), salaId, ok, [MensajeFinal(s, ganadorId)])
    {
      if salaId !in salasActivas {
        return;
      }
      var sala := salasActivas[salaId];
      sala := sala.(estado := FINALIZADA_SALA);
      salasActivas := salasActivas[salaId := sala];
      if salaId in monitores && monitores[salaId].Pendiente? {
        monitores := monitores[salaId := Cancelado];
      }
      TransmitirASala(salaId, PartidaFinalizada(ganadorId, Estadisticas(sala.jugadores)), ok);
    }

    /** `transmitir_a_sala`: one pass over the room's connections; those
        whose send failed are dropped. A room without a connection entry is
        left alone. */
    method TransmitirASala(salaId: string, mensaje: Mensaje, ok: Canal -> bool)
      modifies this
      ensures conexiones == Podadas(old(conexiones), salaId, ok, [mensaje])
      ensures salida == old(salida) + Entregados(old(conexiones), salaId, ok, [mensaje])
      ensures frasesTerror == old(frasesTerror) && salasActivas == old(salasActivas)
      ensures monitores == old(monitores) && almacen == old(almacen)
    {
      if salaId !in conexiones {
        return;
      }
      var validas, entregas := EnviarATodos(conexiones[salaId], mensaje, ok);
      assert [mensaje][..0] == [];
      salida := salida + entregas;
      conexiones := conexiones[salaId := validas];
    }

    /** The connection registration of the WebSocket route
        (routes_ws.py): the channel is appended to the room's list, which is
        created if missing. */
    method Conectar(salaId: string, canal: Canal)
      modifies this
      ensures conexiones == old(conexiones)[salaId := (if salaId in old(conexiones) then old(conexiones[salaId]) else []) + [canal]]
      ensures frasesTerror == old(frasesTerror) && salasActivas == old(salasActivas)
      ensures monitores == old(monitores) && almacen == old(almacen) && salida == old(salida)
    {
      if salaId !in conexiones {
        conexiones := conexiones[salaId := []];
      }
      conexiones := conexiones[salaId := conexiones[salaId] + [canal]];
    }
  }
}
