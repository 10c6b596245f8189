/** Broadcasting to a room (game_manager.py, `transmitir_a_sala`): every
    connection of the room is sent the message once, in list order, and the
    room's list is replaced by the connections whose send succeeded. Whether
    a send succeeds is an input, `ok`. */
module Difusion {
  import opened Mensajes
  import opened Filtro

  /** A client connection; its identity is all the model needs. */
  datatype Canal = Canal(id: nat)

  /** One message delivered on one connection. */
  datatype Envio = Envio(canal: Canal, mensaje: Mensaje)

  /** Message `m` delivered on each of `cs`, in order. */
  function Envios(cs: seq<Canal>, m: Mensaje): (r: seq<Envio>)
    ensures |r| == |cs| && forall k :: 0 <= k < |cs| ==> r[k] == Envio(cs[k], m)
  {
    seq(|cs|, k requires 0 <= k < |cs| => Envio(cs[k], m))
  }

  /** The room's connections after broadcasting `msgs` one after the other:
      the first broadcast prunes the list; since the outcomes of the sends are
      the same for the whole operation, the later ones keep it. A room without
      a connection entry is left without one. */
  function Podadas(conns: map<string, seq<Canal>>, salaId: string, ok: Canal -> bool, msgs: seq<Mensaje>): map<string, seq<Canal>> {
    if salaId in conns && msgs != [] then conns[salaId := Filtrar(conns[salaId], ok)] else conns
  }

  /** What broadcasting `msgs` one after the other delivers. */
  function Entregados(conns: map<string, seq<Canal>>, salaId: string, ok: Canal -> bool, msgs: seq<Mensaje>): seq<Envio> {
    if salaId in conns then EnviosDe(Filtrar(conns[salaId], ok), msgs) else []
  }

  /** Each message of `msgs` in turn delivered on each of `cs`. */
  function EnviosDe(cs: seq<Canal>, msgs: seq<Mensaje>): (r: seq<Envio>)
    ensures |r| == |cs| * |msgs|
  {
    if msgs == [] then [] else EnviosDe(cs, msgs[..|msgs| - 1]) + Envios(cs, msgs[|msgs| - 1])
  }

  /** Delivering `a` and then `b` on the same connections is delivering
      `a + b`. */
  lemma {:induction false} EnviosDeConcat(cs: seq<Canal>, a: seq<Mensaje>, b: seq<Mensaje>)
    ensures EnviosDe(cs, a) + EnviosDe(cs, b) == EnviosDe(cs, a + b)
    decreases |b|
  {
    if b == [] {
      assert a + b == a;
    } else {
      var ini := b[..|b| - 1];
      assert (a + b)[..|a + b| - 1] == a + ini;
      assert (a + b)[|a + b| - 1] == b[|b| - 1];
      EnviosDeConcat(cs, a, ini);
    }
  }

  /** Broadcasting `b` after `msgs` gives the state and the deliveries of
      broadcasting `msgs + b`: pruning happens once. */
  lemma DifundirSeguidos(conns: map<string, seq<Canal>>, salaId: string, ok: Canal -> bool, msgs: seq<Mensaje>, b: seq<Mensaje>)
    ensures var despues := Podadas(conns, salaId, ok, msgs);
      && Podadas(despues, salaId, ok, b) == Podadas(conns, salaId, ok, msgs + b)
      && Entregados(conns, salaId, ok, msgs) + Entregados(despues, salaId, ok, b)
         == Entregados(conns, salaId, ok, msgs + b)
  {
    if salaId in conns {
      var v := Filtrar(conns[salaId], ok);
      if msgs == [] {
        assert msgs + b == b;
        assert EnviosDe(v, msgs) == [];
      } else {
        FiltrarIdempotente(conns[salaId], ok);
        EnviosDeConcat(v, msgs, b);
        if b == [] {
          assert msgs + b == msgs;
        }
      }
    }
  }

  /** The fan-out loop of `transmitir_a_sala` over one connection list: the
      connections kept, and the sends delivered. */
  method EnviarATodos(cs: seq<Canal>, m: Mensaje, ok: Canal -> bool) returns (validas: seq<Canal>, entregas: seq<Envio>)
    ensures validas == Filtrar(cs, ok) && entregas == Envios(validas, m)
  {
    validas := [];
    entregas := [];
    var i := 0;
    while i < |cs|
      invariant 0 <= i <= |cs|
      invariant validas == Filtrar(cs[..i], ok) && entregas == Envios(validas, m)
    {
      assert cs[..i + 1][..i] == cs[..i];
      var ws := cs[i];
      if ok(ws) {
        entregas := entregas + [Envio(ws, m)];
        validas := validas + [ws];
      }
      i := i + 1;
    }
    assert cs[..|cs|] == cs;
  }
}
