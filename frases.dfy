/** The phrase pool the game draws round phrases from (game_manager.py,
    `_cargar_frases_mezcladas`): the phrases fetched from the store, trimmed
    and de-duplicated, followed by every built-in phrase whose text is not
    already present. */
module Frases {
  import opened Texto
  import opened Modelos

  /** A phrase document as the store returns it; a missing key is `None`. */
  datatype DocFrase = DocFrase(
    id: string,
    texto: Option<string>,
    dificultad: Option<string>,
    categoria: Option<string>)

  /** The outcome of asking the store for phrases: the documents, or an
      exception, which the loader treats as an empty answer. */
  datatype Consulta = Devuelta(docs: seq<DocFrase>) | Excepcion

  const FRASES_LOCALES: seq<string> := [
    "La sombra avanzaba silenciosa por el pasillo.",
    "El espejo reflejó una habitación que no era la mía.",
    "Cada vez que parpadeaba, alguien estaba más cerca.",
    "Las luces titilaron y la figura estaba ya detrás de mí.",
    "Encontré una nota que decía: vuelve a dormir.",
    "El susurro decía mi nombre detrás de la puerta.",
    "Al abrir la puerta, nadie respondió al llamado."
  ]

  function DocsDe(c: Consulta): seq<DocFrase> {
    if c.Devuelta? then c.docs else []
  }

  function OrDefault(o: Option<string>, d: string): string {
    match o
    case Some(v) => v
    case None => d
  }

  /** The phrase the loader builds from a document: its text trimmed (`""`
      when it has none), and the default difficulty and category. */
  function FraseDeDoc(d: DocFrase): Frase {
    Frase(d.id, Strip(OrDefault(d.texto, "")), OrDefault(d.dificultad, "media"), OrDefault(d.categoria, "terror"))
  }

  /** The phrase the loader builds from the `i`-th built-in text. */
  function FraseLocal(locales: seq<string>, i: nat): Frase
    requires i < |locales|
  {
    Frase("local_" + Decimal(i), Strip(locales[i]), "media", "terror")
  }

  /** The built-in phrases get pairwise different ids. */
  lemma IdsLocalesDistintos(locales: seq<string>, i: nat, j: nat)
    requires i < |locales| && j < |locales|
    ensures FraseLocal(locales, i).id == FraseLocal(locales, j).id <==> i == j
  {
    if FraseLocal(locales, i).id == FraseLocal(locales, j).id {
      assert FraseLocal(locales, i).id[6..] == Decimal(i);
      assert FraseLocal(locales, j).id[6..] == Decimal(j);
      DecimalInjective(i, j);
    }
  }

  /** The candidates of the first loop, one per document, in order. */
  function DeDocs(docs: seq<DocFrase>): (cs: seq<Frase>)
    ensures |cs| == |docs| && forall i :: 0 <= i < |docs| ==> cs[i] == FraseDeDoc(docs[i])
  {
    seq(|docs|, i requires 0 <= i < |docs| => FraseDeDoc(docs[i]))
  }

  /** The candidates of the second loop, `local_0`, `local_1`, ... */
  function DeLocales(locales: seq<string>): (cs: seq<Frase>)
    ensures |cs| == |locales| && forall i :: 0 <= i < |locales| ==> cs[i] == FraseLocal(locales, i)
  {
    seq(|locales|, i requires 0 <= i < |locales| => FraseLocal(locales, i))
  }

  function Textos(fs: seq<Frase>): set<string> {
    set k | 0 <= k < |fs| :: fs[k].texto
  }

  predicate TextosDistintos(fs: seq<Frase>) {
    forall i, j :: 0 <= i < j < |fs| ==> fs[i].texto != fs[j].texto
  }

  predicate TextosRecortados(fs: seq<Frase>) {
    forall k :: 0 <= k < |fs| ==> Trimmed(fs[k].texto)
  }

  predicate TextosNoVacios(fs: seq<Frase>) {
    forall k :: 0 <= k < |fs| ==> fs[k].texto != []
  }

  /** Whether a loop keeps candidate `f`: its text is not yet used and, in
      the loop over documents (`exigeTexto`), not empty. */
  predicate SeAcepta(f: Frase, usados: set<string>, exigeTexto: bool) {
    (!exigeTexto || f.texto != []) && f.texto !in usados
  }

  /** One of the two loops of the loader: starting from `base`, each candidate
      in turn is appended when it is accepted against the texts present so
      far. */
  function Acumular(base: seq<Frase>, cs: seq<Frase>, exigeTexto: bool): (r: seq<Frase>)
    ensures base <= r && |r| <= |base| + |cs|
  {
    if cs == [] then base
    else
      var prev := Acumular(base, cs[..|cs| - 1], exigeTexto);
      var f := cs[|cs| - 1];
      if SeAcepta(f, Textos(prev), exigeTexto) then prev + [f] else prev
  }

  /** The phrases kept from the fetched documents. */
  function DesdeDocs(docs: seq<DocFrase>): seq<Frase> {
    Acumular([], DeDocs(docs), true)
  }

  /** The pool the game starts with. */
  function Mezcla(c: Consulta): seq<Frase> {
    Acumular(DesdeDocs(DocsDe(c)), DeLocales(FRASES_LOCALES), false)
  }

  lemma TextosSnoc(fs: seq<Frase>, f: Frase)
    ensures Textos(fs + [f]) == Textos(fs) + {f.texto}
  {
    var g := fs + [f];
    forall t | t in Textos(fs) ensures t in Textos(g) {
      var k :| 0 <= k < |fs| && fs[k].texto == t;
      assert g[k] == fs[k];
    }
    assert g[|fs|] == f;
  }

  lemma AnadirBienFormada(fs: seq<Frase>, f: Frase)
    requires TextosRecortados(fs) && TextosDistintos(fs) && Trimmed(f.texto)
    requires forall k :: 0 <= k < |fs| ==> fs[k].texto != f.texto
    ensures TextosRecortados(fs + [f]) && TextosDistintos(fs + [f])
    ensures TextosNoVacios(fs) && f.texto != [] ==> TextosNoVacios(fs + [f])
  {
    var r := fs + [f];
    assert forall k :: 0 <= k < |fs| ==> r[k] == fs[k];
    assert r[|fs|] == f;
  }

  /** Accumulating keeps every text trimmed and no text twice; in the loop
      over documents, no text empty. */
  lemma {:induction false} AcumularBienFormada(base: seq<Frase>, cs: seq<Frase>, exigeTexto: bool)
    requires TextosRecortados(base) && TextosDistintos(base) && TextosRecortados(cs)
    ensures var r := Acumular(base, cs, exigeTexto);
      TextosRecortados(r) && TextosDistintos(r)
      && (TextosNoVacios(base) && (exigeTexto || TextosNoVacios(cs)) ==> TextosNoVacios(r))
  {
    if cs != [] {
      var ini := cs[..|cs| - 1];
      assert TextosRecortados(ini) && (TextosNoVacios(cs) ==> TextosNoVacios(ini)) by {
        assert forall k :: 0 <= k < |ini| ==> ini[k] == cs[k];
      }
      var prev := Acumular(base, ini, exigeTexto);
      AcumularBienFormada(base, ini, exigeTexto);
      var f := cs[|cs| - 1];
      if SeAcepta(f, Textos(prev), exigeTexto) {
        assert Acumular(base, cs, exigeTexto) == prev + [f];
        forall k | 0 <= k < |prev| ensures prev[k].texto != f.texto {
          assert prev[k].texto in Textos(prev);
        }
        AnadirBienFormada(prev, f);
      } else {
        assert Acumular(base, cs, exigeTexto) == prev;
      }
    }
  }

  /** The texts of the candidates a loop accepts when nothing is used yet. */
  function TextosAceptables(cs: seq<Frase>, exigeTexto: bool): set<string> {
    set i | 0 <= i < |cs| && (!exigeTexto || cs[i].texto != []) :: cs[i].texto
  }

  lemma TextosAceptablesSnoc(cs: seq<Frase>, exigeTexto: bool)
    requires cs != []
    ensures var f := cs[|cs| - 1];
      TextosAceptables(cs, exigeTexto) ==
        TextosAceptables(cs[..|cs| - 1], exigeTexto) + (if !exigeTexto || f.texto != [] then {f.texto} else {})
  {
    var n := |cs| - 1;
    var ini := cs[..n];
    var a := TextosAceptables(cs, exigeTexto);
    var b := TextosAceptables(ini, exigeTexto);
    assert forall j :: 0 <= j < n ==> ini[j] == cs[j];
    assert b <= a by {
      forall t | t in b ensures t in a {
        var j :| 0 <= j < |ini| && (!exigeTexto || ini[j].texto != []) && ini[j].texto == t;
        assert cs[j].texto == t;
      }
    }
    forall t | t in a && t !in b ensures t == cs[n].texto {
      var j :| 0 <= j < |cs| && (!exigeTexto || cs[j].texto != []) && cs[j].texto == t;
    }
    if !exigeTexto || cs[n].texto != [] {
      assert cs[n].texto in a;
    }
  }

  /** The texts present after a loop are those of `base` plus those of every
      acceptable candidate: nothing acceptable is lost, nothing else added. */
  lemma {:induction false} AcumularTextos(base: seq<Frase>, cs: seq<Frase>, exigeTexto: bool)
    ensures Textos(Acumular(base, cs, exigeTexto)) == Textos(base) + TextosAceptables(cs, exigeTexto)
  {
    if cs != [] {
      var ini := cs[..|cs| - 1];
      AcumularTextos(base, ini, exigeTexto);
      var prev := Acumular(base, ini, exigeTexto);
      var f := cs[|cs| - 1];
      if SeAcepta(f, Textos(prev), exigeTexto) {
        assert Acumular(base, cs, exigeTexto) == prev + [f];
        TextosSnoc(prev, f);
      } else {
        assert Acumular(base, cs, exigeTexto) == prev;
      }
      TextosAceptablesSnoc(cs, exigeTexto);
    }
  }

  /** Candidate `i` is new: acceptable, and its text neither among those of
      `base` nor among those of the acceptable candidates before it. */
  predicate Nueva(base: seq<Frase>, cs: seq<Frase>, i: nat, exigeTexto: bool)
    requires i < |cs|
  {
    && (!exigeTexto || cs[i].texto != [])
    && cs[i].texto !in Textos(base)
    && cs[i].texto !in TextosAceptables(cs[..i], exigeTexto)
  }

  /** The last candidate is accepted exactly when it is new. */
  lemma UltimaNueva(base: seq<Frase>, cs: seq<Frase>, exigeTexto: bool)
    requires cs != []
    ensures var prev := Acumular(base, cs[..|cs| - 1], exigeTexto);
      SeAcepta(cs[|cs| - 1], Textos(prev), exigeTexto) <==> Nueva(base, cs, |cs| - 1, exigeTexto)
  {
    AcumularTextos(base, cs[..|cs| - 1], exigeTexto);
  }

  /** Whether a candidate is new depends only on the candidates before it. */
  lemma NuevaEnPrefijo(base: seq<Frase>, cs: seq<Frase>, i: nat, n: nat, exigeTexto: bool)
    requires i < n <= |cs|
    ensures Nueva(base, cs[..n], i, exigeTexto) <==> Nueva(base, cs, i, exigeTexto)
  {
    assert cs[..n][..i] == cs[..i];
  }

  /** Every new candidate is kept by the loop. */
  lemma {:induction false} AcumularIncluyeNuevas(base: seq<Frase>, cs: seq<Frase>, exigeTexto: bool, i: nat)
    requires i < |cs| && Nueva(base, cs, i, exigeTexto)
    ensures cs[i] in Acumular(base, cs, exigeTexto)
  {
    var n := |cs| - 1;
    var ini := cs[..n];
    var prev := Acumular(base, ini, exigeTexto);
    var r := Acumular(base, cs, exigeTexto);
    var f := cs[n];
    UltimaNueva(base, cs, exigeTexto);
    if i < n {
      NuevaEnPrefijo(base, cs, i, n, exigeTexto);
      assert ini[i] == cs[i];
      AcumularIncluyeNuevas(base, ini, exigeTexto, i);
      var k :| 0 <= k < |prev| && prev[k] == ini[i];
      assert r[k] == prev[k];
    } else {
      assert r == prev + [f];
      assert r[|prev|] == f;
    }
  }

  /** Everything the loop appends after `base` is a new candidate. */
  lemma {:induction false} AcumularSoloNuevas(base: seq<Frase>, cs: seq<Frase>, exigeTexto: bool, k: nat)
    requires |base| <= k < |Acumular(base, cs, exigeTexto)|
    ensures exists i :: 0 <= i < |cs| && Nueva(base, cs, i, exigeTexto) && Acumular(base, cs, exigeTexto)[k] == cs[i]
  {
    var n := |cs| - 1;
    var ini := cs[..n];
    var prev := Acumular(base, ini, exigeTexto);
    var r := Acumular(base, cs, exigeTexto);
    var f := cs[n];
    UltimaNueva(base, cs, exigeTexto);
    if k < |prev| {
      assert r[k] == prev[k];
      AcumularSoloNuevas(base, ini, exigeTexto, k);
      var i :| 0 <= i < |ini| && Nueva(base, ini, i, exigeTexto) && prev[k] == ini[i];
      NuevaEnPrefijo(base, cs, i, n, exigeTexto);
      assert ini[i] == cs[i];
    } else {
      assert r == prev + [f];
      assert r[k] == cs[n];
    }
  }

  /** A loop keeps the order of its candidates: what it keeps from a prefix of
      them is a prefix of what it keeps from all of them. */
  lemma {:induction false} AcumularPrefijo(base: seq<Frase>, cs: seq<Frase>, exigeTexto: bool, n: nat)
    requires n <= |cs|
    ensures Acumular(base, cs[..n], exigeTexto) <= Acumular(base, cs, exigeTexto)
    decreases |cs|
  {
    if n == |cs| {
      assert cs[..n] == cs;
    } else {
      var ini := cs[..|cs| - 1];
      assert ini[..n] == cs[..n];
      AcumularPrefijo(base, ini, exigeTexto, n);
      var prev := Acumular(base, ini, exigeTexto);
      var f := cs[|cs| - 1];
      assert Acumular(base, cs, exigeTexto) == if SeAcepta(f, Textos(prev), exigeTexto) then prev + [f] else prev;
    }
  }

  lemma CandidatasRecortadas(docs: seq<DocFrase>, locales: seq<string>)
    ensures TextosRecortados(DeDocs(docs)) && TextosRecortados(DeLocales(locales))
  {
  }

  /** Every built-in text is non-empty once trimmed. */
  lemma LocalesNoVacias()
    ensures TextosNoVacios(DeLocales(FRASES_LOCALES))
  {
    var l := FRASES_LOCALES;
    assert forall i :: 0 <= i < |l| ==> l[i] != [] && l[i][|l[i]| - 1] == '.';
    forall i | 0 <= i < |l| ensures DeLocales(l)[i].texto != [] {
      EndSurvivesStrip(l[i]);
    }
  }

  /** The pool holds only non-empty trimmed texts, no text twice, and every
      built-in text; it starts with the phrases kept from the fetched
      documents. So it is never empty, even when the store fails. */
  lemma MezclaBienFormada(c: Consulta)
    ensures var r := Mezcla(c);
      && TextosRecortados(r) && TextosNoVacios(r) && TextosDistintos(r)
      && DesdeDocs(DocsDe(c)) <= r
      && (forall i :: 0 <= i < |FRASES_LOCALES| ==> Strip(FRASES_LOCALES[i]) in Textos(r))
      && r != []
  {
    var docs := DocsDe(c);
    var base := DesdeDocs(docs);
    var locales := DeLocales(FRASES_LOCALES);
    var r := Mezcla(c);
    CandidatasRecortadas(docs, FRASES_LOCALES);
    AcumularBienFormada([], DeDocs(docs), true);
    LocalesNoVacias();
    AcumularBienFormada(base, locales, false);
    AcumularTextos(base, locales, false);
    forall i | 0 <= i < |FRASES_LOCALES| ensures Strip(FRASES_LOCALES[i]) in Textos(r) {
      assert locales[i].texto in TextosAceptables(locales, false);
    }
    assert locales[0].texto in Textos(r);
  }

  /** Document `j` is the first whose trimmed text is this non-empty one. */
  predicate PrimeraAparicion(docs: seq<DocFrase>, j: nat)
    requires j < |docs|
  {
    FraseDeDoc(docs[j]).texto != [] &&
    forall i :: 0 <= i < j ==> FraseDeDoc(docs[i]).texto != FraseDeDoc(docs[j]).texto
  }

  /** The loop over documents keeps their order: what it keeps from the
      first `n` documents is a prefix of what it keeps from all of them, and
      the pool starts with the latter. */
  lemma DocsEnOrden(c: Consulta, n: nat)
    requires n <= |DocsDe(c)|
    ensures DesdeDocs(DocsDe(c)[..n]) <= DesdeDocs(DocsDe(c)) <= Mezcla(c)
  {
    var docs := DocsDe(c);
    AcumularPrefijo([], DeDocs(docs), true, n);
    DeDocsPrefijo(docs, n);
  }

  /** The candidates of a prefix of the documents are a prefix of the
      candidates. */
  lemma DeDocsPrefijo(docs: seq<DocFrase>, n: nat)
    requires n <= |docs|
    ensures DeDocs(docs[..n]) == DeDocs(docs)[..n]
  {
    var a := DeDocs(docs[..n]);
    var b := DeDocs(docs)[..n];
    forall k | 0 <= k < n ensures a[k] == b[k] {
      assert docs[..n][k] == docs[k];
    }
  }

  /** Each phrase kept from the documents is built from the first document
      carrying its (non-empty, trimmed) text. */
  lemma DocsPrimeras(c: Consulta, k: nat)
    requires k < |DesdeDocs(DocsDe(c))|
    ensures exists j :: 0 <= j < |DocsDe(c)| && PrimeraAparicion(DocsDe(c), j)
                        && DesdeDocs(DocsDe(c))[k] == FraseDeDoc(DocsDe(c)[j])
  {
    var docs := DocsDe(c);
    var cs := DeDocs(docs);
    AcumularSoloNuevas([], cs, true, k);
    var j :| 0 <= j < |cs| && Nueva([], cs, j, true) && DesdeDocs(docs)[k] == cs[j];
    forall i | 0 <= i < j ensures FraseDeDoc(docs[i]).texto != FraseDeDoc(docs[j]).texto {
      assert cs[..j][i] == cs[i];
    }
    assert PrimeraAparicion(docs, j);
  }

  /** Every document whose trimmed text is non-empty has that text in the
      pool. */
  lemma DocsCompletas(c: Consulta, j: nat)
    requires j < |DocsDe(c)| && FraseDeDoc(DocsDe(c)[j]).texto != []
    ensures FraseDeDoc(DocsDe(c)[j]).texto in Textos(DesdeDocs(DocsDe(c)))
  {
    var cs := DeDocs(DocsDe(c));
    AcumularTextos([], cs, true);
    assert cs[j].texto in TextosAceptables(cs, true);
  }

  /** A built-in phrase whose trimmed text is new, against the fetched
      phrases and the built-in texts before it, is in the pool under id
      `local_i`. */
  lemma LocalIncluida(c: Consulta, i: nat)
    requires i < |FRASES_LOCALES| && Nueva(DesdeDocs(DocsDe(c)), DeLocales(FRASES_LOCALES), i, false)
    ensures FraseLocal(FRASES_LOCALES, i) in Mezcla(c)
  {
    AcumularIncluyeNuevas(DesdeDocs(DocsDe(c)), DeLocales(FRASES_LOCALES), false, i);
  }

  /** Nothing but new built-in phrases follows the fetched ones. */
  lemma SoloLocalesNuevas(c: Consulta, k: nat)
    requires |DesdeDocs(DocsDe(c))| <= k < |Mezcla(c)|
    ensures exists i :: 0 <= i < |FRASES_LOCALES| && Nueva(DesdeDocs(DocsDe(c)), DeLocales(FRASES_LOCALES), i, false)
                        && Mezcla(c)[k] == FraseLocal(FRASES_LOCALES, i)
  {
    AcumularSoloNuevas(DesdeDocs(DocsDe(c)), DeLocales(FRASES_LOCALES), false, k);
  }

  /** One more turn of a loop appends the next candidate exactly when it is
      accepted. */
  lemma AcumularPaso(base: seq<Frase>, cs: seq<Frase>, n: nat, exigeTexto: bool, usados: set<string>)
    requires n < |cs| && usados == Textos(Acumular(base, cs[..n], exigeTexto))
    ensures var prev := Acumular(base, cs[..n], exigeTexto);
      if SeAcepta(cs[n], usados, exigeTexto) then
        Acumular(base, cs[..n + 1], exigeTexto) == prev + [cs[n]]
        && Textos(prev + [cs[n]]) == usados + {cs[n].texto}
      else Acumular(base, cs[..n + 1], exigeTexto) == prev
  {
    assert cs[..n + 1][..n] == cs[..n];
    TextosSnoc(Acumular(base, cs[..n], exigeTexto), cs[n]);
  }

  /** `_cargar_frases_mezcladas`: the loop over the fetched documents, then
      the loop over the built-in texts, both growing the same list of phrases
      and set of texts already used. */
  method CargarFrasesMezcladas(c: Consulta) returns (r: seq<Frase>)
    ensures r == Mezcla(c)
    ensures r != [] && TextosRecortados(r) && TextosNoVacios(r) && TextosDistintos(r)
  {
    var finales, usados := FiltrarDocs(DocsDe(c));
    r := AnadirLocales(finales, usados, FRASES_LOCALES);
    MezclaBienFormada(c);
  }

  /** The first loop: keep each document whose trimmed text is non-empty and
      not yet used. */
  method FiltrarDocs(docs: seq<DocFrase>) returns (finales: seq<Frase>, usados: set<string>)
    ensures finales == DesdeDocs(docs) && usados == Textos(finales)
  {
    finales := [];
    usados := {};
    ghost var cs := DeDocs(docs);
    var i := 0;
    while i < |docs|
      invariant 0 <= i <= |docs|
      invariant finales == Acumular([], cs[..i], true)
      invariant usados == Textos(finales)
    {
      AcumularPaso([], cs, i, true, usados);
      var d := docs[i];
      var txt := Strip(OrDefault(d.texto, ""));
      assert cs[i] == FraseDeDoc(d) && cs[i].texto == txt;
      if txt != [] && txt !in usados {
        var f := Frase(d.id, txt, OrDefault(d.dificultad, "media"), OrDefault(d.categoria, "terror"));
        usados := usados + {txt};
        finales := finales + [f];
      }
      i := i + 1;
    }
    assert i == |cs|;
    PrefijoTotal(cs);
    assert finales == Acumular([], cs, true);
  }

  /** The second loop: append the `i`-th built-in text as `local_i` when its
      trimmed form is not yet used. */
  method AnadirLocales(base: seq<Frase>, usadosBase: set<string>, locales: seq<string>) returns (finales: seq<Frase>)
    requires usadosBase == Textos(base)
    ensures finales == Acumular(base, DeLocales(locales), false)
  {
    finales := base;
    var usados := usadosBase;
    ghost var ls := DeLocales(locales);
    var i := 0;
    while i < |locales|
      invariant 0 <= i <= |locales|
      invariant finales == Acumular(base, ls[..i], false)
      invariant usados == Textos(finales)
    {
      AcumularPaso(base, ls, i, false, usados);
      var txt := Strip(locales[i]);
      assert ls[i] == FraseLocal(locales, i) && ls[i].texto == txt;
      if txt !in usados {
        var f := Frase("local_" + Decimal(i), txt, "media", "terror");
        usados := usados + {txt};
        finales := finales + [f];
      }
      i := i + 1;
    }
    assert i == |ls|;
    PrefijoTotal(ls);
    assert finales == Acumular(base, ls, false);
  }

  /** The whole list is its own longest prefix.
      A proof step only: stated on its own so that the methods using it stay cheap to verify. */
  lemma PrefijoTotal(xs: seq<Frase>)
    ensures xs[..|xs|] == xs
  {
  }
}
