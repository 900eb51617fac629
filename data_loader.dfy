/** The catalog store `CSVDataLoader` of js/data-loader.js: parsed CSV rows
    become products carrying a normalised view of their fields, rows without
    a product code get a fallback code, the distinct categories are indexed,
    and products are looked up by category and distinct field values listed
    for the page's filters. */
module DataLoader {
  import opened Text
  import opened Ordering

  datatype Option<T> = None | Some(value: T)

  /** One row as the CSV parser hands it over: column header to cell text. */
  type Row = map<string, string>

  /** `p[key] || ""`: the cell under `key`, a missing column read as "". */
  function Cell(p: Row, key: string): string {
    if key in p then p[key] else ""
  }

  /** The object `normalizzaProdotto` builds, with the two fields the loader
      may overwrite (`codice`, and `senzaCodice`, which is absent, that is
      false, unless a fallback code was given). */
  datatype Normalized = Normalized(
    categoria: string,
    aspetto: string,
    filo: string,
    materiale: string,
    internoFilo: string,
    spessore: string,
    peso: string,
    descrizione: string,
    codice: string,
    percorsoImmagine: string,
    senzaCodice: bool)

  /** A stored product: every raw field of its row plus `normalizzato`. */
  datatype Product = Product(raw: Row, normalizzato: Normalized)

  /** The string-valued keys of a normalised product. */
  datatype Campo =
    | Categoria | Aspetto | Filo | Materiale | InternoFilo
    | Spessore | Peso | Descrizione | Codice | PercorsoImmagine

  /** `normalizzato[campo]`. */
  function Value(n: Normalized, campo: Campo): string {
    match campo
    case Categoria => n.categoria
    case Aspetto => n.aspetto
    case Filo => n.filo
    case Materiale => n.materiale
    case InternoFilo => n.internoFilo
    case Spessore => n.spessore
    case Peso => n.peso
    case Descrizione => n.descrizione
    case Codice => n.codice
    case PercorsoImmagine => n.percorsoImmagine
  }

  /** The CSV column each normalised field is read from. */
  function Column(campo: Campo): string {
    match campo
    case Categoria => "Categoria"
    case Aspetto => "ASPETTO"
    case Filo => "Filo"
    case Materiale => "Materiale"
    case InternoFilo => "Interno Filo"
    case Spessore => "Dim Filo"
    case Peso => "Peso (g)"
    case Descrizione => "Descrizione"
    case Codice => "Codice prodotto"
    case PercorsoImmagine => "CODICE_REACTO"
  }

  /** The inner `normalizza` of `normalizzaProdotto` on a text already in
      canonical decomposition: combining marks removed, then the regular
      expression replace that strips a leading run of BOM/whitespace and a
      trailing run of whitespace (`\s` includes the BOM, so this is a trim),
      then `trim()`. The result has no marks, no whitespace at its ends, and
      only characters of `v`. */
  function Normalizza(v: string): (r: string)
    ensures NoMarks(r) && NoEdgeSpace(r)
    ensures forall c :: c in r ==> c in v
  {
    var stripped := StripMarks(v);
    var r := Trim(Trim(stripped));
    forall c | c in r ensures c in stripped {
      TrimKeepsCharacters(Trim(stripped), c);
      TrimKeepsCharacters(stripped, c);
    }
    r
  }

  /** Text without marks and without whitespace at its ends is left as it is
      by `Normalizza`. */
  lemma {:induction false} NormalizzaFixesClean(v: string)
    requires NoMarks(v) && NoEdgeSpace(v)
    ensures Normalizza(v) == v
  {
    StripMarksNoop(v);
    TrimNoop(v);
  }

  /** Normalising a normalised text changes nothing. */
  lemma {:induction false} NormalizzaIdempotent(v: string)
    ensures Normalizza(Normalizza(v)) == Normalizza(v)
  {
    NormalizzaFixesClean(Normalizza(v));
  }

  /** What `Normalizza` removes: the marks, then whitespace at the ends and
      nothing else, so its result sits in the mark-free text framed by
      whitespace alone. */
  lemma {:induction false} NormalizzaIsInfix(v: string) returns (k: int)
    ensures Framed(StripMarks(v), Normalizza(v), k)
  {
    TrimNoop(Trim(StripMarks(v)));
    k := TrimIsInfix(StripMarks(v));
  }

  /** `normalizza(p["Categoria"]).toLowerCase()`. */
  function NormalizzaCategoria(v: string): (r: string)
    ensures NoMarks(r) && NoEdgeSpace(r)
    ensures forall i :: 0 <= i < |r| ==> !IsUpper(r[i])
  {
    ToLowerCase(Normalizza(v))
  }

  /** The cleaning `getProdottiPerCategoria` applies to the query and to each
      stored category: marks removed, trimmed, lower-cased. */
  function Pulisci(v: string): (r: string)
    ensures NoMarks(r) && NoEdgeSpace(r)
    ensures forall i :: 0 <= i < |r| ==> !IsUpper(r[i])
  {
    TrimKeepsNoMarks(StripMarks(v));
    ToLowerCase(Trim(StripMarks(v)))
  }

  /** The query is cleaned by the same rule that normalises categories. */
  lemma {:induction false} PulisciIsCategoryRule(v: string)
    ensures Pulisci(v) == NormalizzaCategoria(v)
  {
    TrimNoop(Trim(StripMarks(v)));
  }

  /** The cleaning is case-insensitive: texts that differ only in the case
      of their letters clean to the same text. */
  lemma PulisciIgnoresCase(s: string, t: string)
    requires SameUpToCase(s, t)
    ensures Pulisci(s) == Pulisci(t)
  {
    StripMarksKeepsCaseVariants(s, t);
    TrimKeepsCaseVariants(StripMarks(s), StripMarks(t));
    ToLowerCaseIgnoresCase(Trim(StripMarks(s)), Trim(StripMarks(t)));
  }

  /** Cleaning a normalised category gives it back: the filter compares the
      stored category itself with the cleaned query. */
  lemma {:induction false} PulisciFixesCategory(v: string)
    ensures Pulisci(NormalizzaCategoria(v)) == NormalizzaCategoria(v)
  {
    var c := NormalizzaCategoria(v);
    StripMarksNoop(c);
    TrimNoop(c);
    ToLowerCaseNoop(c);
  }

  const ImagePrefix: string := "img/prodotti/"
  const ImageSuffix: string := ".jpg"
  const Placeholder: string := "img/placeholder.jpg"

  /** `percorsoImmagine` for an already trimmed `CODICE_REACTO`. */
  function ImagePath(codiceReacto: string): string {
    if codiceReacto != "" then ImagePrefix + codiceReacto + ImageSuffix else Placeholder
  }

  /** The reacto code a product image path names, if it names one. */
  function CodeFromImagePath(path: string): Option<string> {
    if StartsWith(path, ImagePrefix) && EndsWith(path, ImageSuffix)
       && |path| > |ImagePrefix| + |ImageSuffix|
    then Some(path[|ImagePrefix|..|path| - |ImageSuffix|])
    else None
  }

  /** The image path names exactly the code it was built from, and the
      placeholder names none: distinct codes never share an image path. */
  lemma {:induction false} ImagePathRoundTrip(codiceReacto: string)
    ensures CodeFromImagePath(ImagePath(codiceReacto))
            == if codiceReacto == "" then None else Some(codiceReacto)
  {
    var path := ImagePath(codiceReacto);
    if codiceReacto == "" {
      assert path[5] == 'l' && ImagePrefix[5] == 'r';
    } else {
      assert path == ImagePrefix + codiceReacto + ImageSuffix;
      assert path[..|ImagePrefix|] == ImagePrefix;
      assert path[|path| - |ImageSuffix|..] == ImageSuffix;
      assert path[|ImagePrefix|..|path| - |ImageSuffix|] == codiceReacto;
    }
  }

  /** `normalizzaProdotto(p)`. */
  function NormalizzaProdotto(p: Row): (n: Normalized)
    ensures n.percorsoImmagine == ImagePath(Trim(Cell(p, Column(PercorsoImmagine))))
    ensures !n.senzaCodice
  {
    var codiceReacto := Trim(Cell(p, Column(PercorsoImmagine)));
    Normalized(
      categoria := NormalizzaCategoria(Cell(p, Column(Categoria))),
      aspetto := Normalizza(Cell(p, Column(Aspetto))),
      filo := Normalizza(Cell(p, Column(Filo))),
      materiale := Normalizza(Cell(p, Column(Materiale))),
      internoFilo := Normalizza(Cell(p, Column(InternoFilo))),
      spessore := Normalizza(Cell(p, Column(Spessore))),
      peso := Normalizza(Cell(p, Column(Peso))),
      descrizione := Normalizza(Cell(p, Column(Descrizione))),
      codice := Normalizza(Cell(p, Column(Codice))),
      percorsoImmagine := ImagePath(codiceReacto),
      senzaCodice := false)
  }

  /** Each text field of `normalizzaProdotto(p)` is its column normalised
      (the category also lower-cased): no combining marks, no whitespace at
      either end, and no upper-case letter in the category. */
  lemma {:induction false} NormalizzaProdottoField(p: Row, campo: Campo)
    requires campo != PercorsoImmagine
    ensures var v := Value(NormalizzaProdotto(p), campo);
            NoMarks(v) && NoEdgeSpace(v)
            && (campo != Categoria ==> v == Normalizza(Cell(p, Column(campo))))
            && (campo == Categoria ==> v == ToLowerCase(Normalizza(Cell(p, Column(campo))))
                                       && forall i :: 0 <= i < |v| ==> !IsUpper(v[i]))
  {
    match campo
    case Categoria =>
    case Aspetto =>
    case Filo =>
    case Materiale =>
    case InternoFilo =>
    case Spessore =>
    case Peso =>
    case Descrizione =>
    case Codice =>
  }

  /** A product's image path is the placeholder exactly when its trimmed
      `CODICE_REACTO` is empty, and otherwise names that trimmed code. */
  lemma {:induction false} ImagePathOfRow(p: Row)
    ensures CodeFromImagePath(NormalizzaProdotto(p).percorsoImmagine)
            == (var t := Trim(Cell(p, Column(PercorsoImmagine))); if t == "" then None else Some(t))
    ensures NormalizzaProdotto(p).percorsoImmagine == Placeholder
            <==> Trim(Cell(p, Column(PercorsoImmagine))) == ""
  {
    ImagePathRoundTrip(Trim(Cell(p, Column(PercorsoImmagine))));
    ImagePathRoundTrip("");
  }

  const FallbackPrefix: string := "NO-CODE-"

  /** `NO-CODE-{idx + 1}`: the code given to the row at 0-based `idx`. */
  function FallbackCode(idx: nat): (code: string)
    ensures StartsWith(code, FallbackPrefix) && |code| > |FallbackPrefix|
  {
    FallbackPrefix + DecimalString(idx + 1)
  }

  /** The number after the prefix of a fallback code is the row's 1-based
      position. */
  lemma FallbackCodeNumber(idx: nat)
    ensures FallbackCode(idx)[..|FallbackPrefix|] == FallbackPrefix
    ensures NumeralValue(FallbackCode(idx)[|FallbackPrefix|..]) == idx + 1
  {
    assert FallbackCode(idx)[|FallbackPrefix|..] == DecimalString(idx + 1);
    NumeralRoundTrip(idx + 1);
  }

  /** Different rows get different fallback codes. */
  lemma {:induction false} FallbackCodeInjective(i: nat, j: nat)
    requires FallbackCode(i) == FallbackCode(j)
    ensures i == j
  {
    assert FallbackCode(i)[|FallbackPrefix|..] == DecimalString(i + 1);
    assert FallbackCode(j)[|FallbackPrefix|..] == DecimalString(j + 1);
    DecimalStringInjective(i + 1, j + 1);
  }

  /** What the `map` callback of `caricaCSV` returns for row `p` at index
      `idx`. */
  function LoadedProduct(p: Row, idx: nat): (r: Product)
    ensures r.raw == p
    ensures r.normalizzato.codice != ""
    ensures r.normalizzato.senzaCodice <==> NormalizzaProdotto(p).codice == ""
    ensures r.normalizzato.senzaCodice ==> r.normalizzato.codice == FallbackCode(idx)
    ensures !r.normalizzato.senzaCodice ==> r.normalizzato == NormalizzaProdotto(p)
    ensures r.normalizzato == NormalizzaProdotto(p).(codice := r.normalizzato.codice,
                                                      senzaCodice := r.normalizzato.senzaCodice)
  {
    var norm := NormalizzaProdotto(p);
    Product(p, if norm.codice == "" then norm.(codice := FallbackCode(idx), senzaCodice := true) else norm)
  }

  /** Within one load, no two rows carry the same fallback code. */
  lemma {:induction false} FallbackCodesDistinct(rows: seq<Row>, i: nat, j: nat)
    requires i < |rows| && j < |rows| && i != j
    requires LoadedProduct(rows[i], i).normalizzato.senzaCodice
    requires LoadedProduct(rows[j], j).normalizzato.senzaCodice
    ensures LoadedProduct(rows[i], i).normalizzato.codice != LoadedProduct(rows[j], j).normalizzato.codice
  {
    if FallbackCode(i) == FallbackCode(j) {
      FallbackCodeInjective(i, j);
    }
  }

  /** Fallback codes are distinct from one another, but not from the codes
      the CSV supplies: a row whose own code is `NO-CODE-2` gets the same code
      as a code-less second row. */
  lemma RealCodeMayMatchFallback()
    ensures LoadedProduct(map["Codice prodotto" := "NO-CODE-2"], 0).normalizzato.codice
         == LoadedProduct(map[], 1).normalizzato.codice
  {
    SuppliedCodeKept(map["Codice prodotto" := "NO-CODE-2"]);
    assert NormalizzaProdotto(map[]).codice == "" by {
      assert Cell(map[], Column(Codice)) == "";
    }
    SecondFallbackCode();
  }

  /** A row whose code column is `NO-CODE-2` keeps that code. */
  lemma SuppliedCodeKept(given: Row)
    requires given == map["Codice prodotto" := "NO-CODE-2"]
    ensures NormalizzaProdotto(given).codice == "NO-CODE-2"
  {
    NormalizzaProdottoField(given, Codice);
    assert Cell(given, Column(Codice)) == "NO-CODE-2";
    CleanCodeKept("NO-CODE-2");
  }

  /** `NO-CODE-2` has no marks and no edge whitespace, so `Normalizza` keeps it. */
  lemma CleanCodeKept(code: string)
    requires code == "NO-CODE-2"
    ensures Normalizza(code) == code
  {
    assert code[0] == 'N' && code[|code| - 1] == '2';
    assert NoMarks(code) by {
      forall i | 0 <= i < |code| ensures !IsCombiningMark(code[i]) {
        assert code[i] in "NO-CODE2";
      }
    }
    NormalizzaFixesClean(code);
  }

  /** The second row's fallback code. */
  lemma SecondFallbackCode()
    ensures FallbackCode(1) == "NO-CODE-2"
  {
    assert Digit(2) == '2';
    assert DecimalString(2) == "2";
    assert FallbackCode(1) == FallbackPrefix + "2";
  }

  /** The distinct non-empty values of `campo` across `ps`. */
  function ValueSet(ps: seq<Product>, campo: Campo): (vs: set<string>)
    ensures "" !in vs
    decreases |ps|
  {
    if ps == [] then {}
    else
      var v := Value(ps[|ps| - 1].normalizzato, campo);
      ValueSet(ps[..|ps| - 1], campo) + (if v != "" then {v} else {})
  }

  /** A string is in `ValueSet` exactly when it is non-empty and is the value
      of `campo` in some product. */
  lemma {:induction false} ValueSetIff(ps: seq<Product>, campo: Campo, x: string)
    ensures x in ValueSet(ps, campo)
            <==> x != "" && exists i :: 0 <= i < |ps| && Value(ps[i].normalizzato, campo) == x
    decreases |ps|
  {
    if ps != [] {
      var init := ps[..|ps| - 1];
      ValueSetIff(init, campo, x);
      if exists i :: 0 <= i < |init| && Value(init[i].normalizzato, campo) == x {
        var i :| 0 <= i < |init| && Value(init[i].normalizzato, campo) == x;
        assert ps[i] == init[i];
      }
      if exists i :: 0 <= i < |ps| && Value(ps[i].normalizzato, campo) == x {
        var i :| 0 <= i < |ps| && Value(ps[i].normalizzato, campo) == x;
        if i < |init| {
          assert init[i] == ps[i];
        }
      }
    }
  }

  /** The filter condition of `getProdottiPerCategoria` for a cleaned query
      `q`: the cleaned category equals `q`, contains it, or is contained in
      it. */
  predicate CategoryMatches(categoria: string, q: string) {
    var cat := Pulisci(categoria);
    cat == q || Includes(cat, q) || Includes(q, cat)
  }

  /** `ps.filter(...)` with the category condition: the products of `ps` that
      match, in their order and as often as they occur there. */
  function FilterByCategory(ps: seq<Product>, q: string): (r: seq<Product>)
    ensures IsSubsequence(r, ps)
    ensures forall p :: multiset(r)[p]
                        == if CategoryMatches(p.normalizzato.categoria, q) then multiset(ps)[p] else 0
  {
    if ps == [] then []
    else
      var rest := FilterByCategory(ps[1..], q);
      assert ps == [ps[0]] + ps[1..];
      if CategoryMatches(ps[0].normalizzato.categoria, q) then
        assert ([ps[0]] + rest)[1..] == rest;
        [ps[0]] + rest
      else
        rest
  }

  /** A query made only of whitespace is truthy but cleans to "", which every
      category includes: every product is returned. */
  lemma {:induction false} BlankQueryMatchesAll(ps: seq<Product>, nome: string)
    requires AllSpace(nome)
    ensures Pulisci(nome) == ""
    ensures FilterByCategory(ps, Pulisci(nome)) == ps
  {
    StripMarksNoop(nome);
    TrimBlank(nome);
    AllMatchEmptyQuery(ps);
  }

  lemma {:induction false} AllMatchEmptyQuery(ps: seq<Product>)
    ensures FilterByCategory(ps, "") == ps
    decreases |ps|
  {
    if ps != [] {
      IncludesEmpty(Pulisci(ps[0].normalizzato.categoria));
      AllMatchEmptyQuery(ps[1..]);
      assert ps == [ps[0]] + ps[1..];
    }
  }

  /** A product whose category is "" matches whatever the cleaned query:
      "" is included in every string. */
  lemma {:induction false} EmptyCategoryMatchesAll(ps: seq<Product>, q: string, i: nat)
    requires i < |ps| && ps[i].normalizzato.categoria == ""
    ensures ps[i] in FilterByCategory(ps, q)
  {
    assert Pulisci("") == "";
    IncludesEmpty(q);
    assert ps[i] in multiset(ps);
  }

  /** What `fetch`, `response.text()` and `Papa.parse` deliver: either an
      error was thrown on the way, or the parsed rows. */
  datatype FetchOutcome = Failed | Parsed(rows: seq<Row>)

  class CSVDataLoader {
    var prodotti: seq<Product>
    var categorie: set<string>

    /** Every product is what loading its own row at its position gives, and
        the category index matches the products. */
    ghost predicate Valid()
      reads this
    {
      (forall i :: 0 <= i < |prodotti| ==> prodotti[i] == LoadedProduct(prodotti[i].raw, i))
      && categorie == ValueSet(prodotti, Categoria)
    }

    constructor()
      ensures Valid()
      ensures prodotti == [] && categorie == {}
    {
      prodotti := [];
      categorie := {};
    }

    /** `caricaCSV`, with the retrieval and parsing it awaits given as
        `esito`. On failure it returns [] and leaves the store as it was;
        otherwise the products are the loaded rows, in order, and the
        category index is rebuilt. */
    method CaricaCSV(esito: FetchOutcome) returns (r: seq<Product>)
      modifies this
      ensures esito.Failed? ==> r == [] && prodotti == old(prodotti) && categorie == old(categorie)
      ensures esito.Parsed? ==> r == prodotti && |prodotti| == |esito.rows|
      ensures esito.Parsed? ==> forall i :: 0 <= i < |prodotti| ==> prodotti[i] == LoadedProduct(esito.rows[i], i)
      ensures esito.Parsed? ==> Valid()
    {
      if esito.Failed? {
        return [];
      }
      prodotti := MappaRighe(esito.rows);
      EstraiCategorie();
      r := prodotti;
    }

    /** `parsed.data.map(...)`: the callback applied to every parsed row with
        its index, in order. */
    static method MappaRighe(rows: seq<Row>) returns (loaded: seq<Product>)
      ensures |loaded| == |rows|
      ensures forall i :: 0 <= i < |rows| ==> loaded[i] == LoadedProduct(rows[i], i)
    {
      loaded := [];
      var idx := 0;
      while idx < |rows|
        invariant 0 <= idx <= |rows|
        invariant |loaded| == idx
        invariant forall i :: 0 <= i < idx ==> loaded[i] == LoadedProduct(rows[i], i)
      {
        var prodotto := MappaRiga(rows[idx], idx);
        LoadedAppend(rows, loaded, prodotto);
        loaded := loaded + [prodotto];
        idx := idx + 1;
      }
    }

    /** The callback `(p, idx) => { ... }` that `caricaCSV` maps over the
        parsed rows: normalise the row, give it the fallback code if its code
        normalised to "", and pair it with the raw row. */
    static method MappaRiga(p: Row, idx: nat) returns (r: Product)
      ensures r == LoadedProduct(p, idx)
    {
      var norm := NormalizzaProdotto(p);
      if norm.codice == "" {
        norm := norm.(codice := FallbackCode(idx), senzaCodice := true);
      }
      r := Product(p, norm);
    }

    /** `estraiCategorie`: clears the category index and refills it from the
        products' normalised categories. */
    method EstraiCategorie()
      modifies this`categorie
      ensures categorie == ValueSet(prodotti, Categoria)
      ensures prodotti == old(prodotti)
    {
      categorie := {};
      var i := 0;
      while i < |prodotti|
        invariant 0 <= i <= |prodotti|
        invariant categorie == ValueSet(prodotti[..i], Categoria)
      {
        var cat := prodotti[i].normalizzato.categoria;
        if cat != "" {
          categorie := categorie + {cat};
        }
        assert prodotti[..i + 1][..i] == prodotti[..i];
        i := i + 1;
      }
      assert prodotti[..i] == prodotti;
    }

    /** `getProdottiPerCategoria(nomeCategoria)`: "" gives []; any other
        query gives the products, in store order, whose cleaned category
        equals the cleaned query, contains it, or is contained in it. */
    function GetProdottiPerCategoria(nomeCategoria: string): (r: seq<Product>)
      reads this
      ensures nomeCategoria == "" ==> r == []
      ensures IsSubsequence(r, prodotti)
      ensures nomeCategoria != "" ==>
                forall p :: multiset(r)[p]
                            == if CategoryMatches(p.normalizzato.categoria, Pulisci(nomeCategoria))
                               then multiset(prodotti)[p] else 0
    {
      if nomeCategoria == "" then [] else FilterByCategory(prodotti, Pulisci(nomeCategoria))
    }

    /** `getValoriUnici(campo)`: the distinct non-empty values of `campo`,
        collected in a set and then sorted. */
    method GetValoriUnici(campo: Campo) returns (r: seq<string>)
      ensures StrictlySorted(r)
      ensures Elements(r) == ValueSet(prodotti, campo)
    {
      var valori: seq<string> := [];
      var i := 0;
      while i < |prodotti|
        invariant 0 <= i <= |prodotti|
        invariant NoDuplicates(valori)
        invariant Elements(valori) == ValueSet(prodotti[..i], campo)
      {
        var valore := Value(prodotti[i].normalizzato, campo);
        ghost var before := valori;
        if valore != "" && valore !in valori {
          valori := valori + [valore];
        }
        assert prodotti[..i + 1] == prodotti[..i] + [prodotti[i]];
        CollectValue(before, prodotti[..i], prodotti[i], campo, valori);
        i := i + 1;
      }
      assert prodotti[..i] == prodotti;
      SortDistinct(valori);
      r := Sort(valori);
    }

    method GetAspettiUnici() returns (r: seq<string>)
      ensures StrictlySorted(r) && Elements(r) == ValueSet(prodotti, Aspetto)
    {
      r := GetValoriUnici(Aspetto);
    }

    method GetFiliUnici() returns (r: seq<string>)
      ensures StrictlySorted(r) && Elements(r) == ValueSet(prodotti, Filo)
    {
      r := GetValoriUnici(Filo);
    }

    method GetMaterialiUnici() returns (r: seq<string>)
      ensures StrictlySorted(r) && Elements(r) == ValueSet(prodotti, Materiale)
    {
      r := GetValoriUnici(Materiale);
    }

    method GetInterniFiloUnici() returns (r: seq<string>)
      ensures StrictlySorted(r) && Elements(r) == ValueSet(prodotti, InternoFilo)
    {
      r := GetValoriUnici(InternoFilo);
    }

    method GetSpessoriUnici() returns (r: seq<string>)
      ensures StrictlySorted(r) && Elements(r) == ValueSet(prodotti, Spessore)
    {
      r := GetValoriUnici(Spessore);
    }

    method GetPesiUnici() returns (r: seq<string>)
      ensures StrictlySorted(r) && Elements(r) == ValueSet(prodotti, Peso)
    {
      r := GetValoriUnici(Peso);
    }
  }

  /** What a loaded store guarantees: every product has a non-empty code,
      fallback codes are pairwise distinct, and each stored category is
      already in the form the category filter cleans to. */
  lemma LoadedStoreFacts(store: CSVDataLoader)
    requires store.Valid()
    ensures forall i :: 0 <= i < |store.prodotti| ==> store.prodotti[i].normalizzato.codice != ""
    ensures forall i, j :: 0 <= i < j < |store.prodotti|
              && store.prodotti[i].normalizzato.senzaCodice && store.prodotti[j].normalizzato.senzaCodice
              ==> store.prodotti[i].normalizzato.codice != store.prodotti[j].normalizzato.codice
    ensures forall i :: 0 <= i < |store.prodotti|
              ==> Pulisci(store.prodotti[i].normalizzato.categoria) == store.prodotti[i].normalizzato.categoria
  {
    var ps := store.prodotti;
    var rows := seq(|ps|, i requires 0 <= i < |ps| => ps[i].raw);
    forall i, j | 0 <= i < j < |ps| && ps[i].normalizzato.senzaCodice && ps[j].normalizzato.senzaCodice
      ensures ps[i].normalizzato.codice != ps[j].normalizzato.codice
    {
      assert ps[i] == LoadedProduct(rows[i], i) && ps[j] == LoadedProduct(rows[j], j);
      FallbackCodesDistinct(rows, i, j);
    }
    forall i | 0 <= i < |ps|
      ensures Pulisci(ps[i].normalizzato.categoria) == ps[i].normalizzato.categoria
    {
      assert ps[i] == LoadedProduct(ps[i].raw, i);
      PulisciFixesCategory(Cell(ps[i].raw, "Categoria"));
    }
  }

  /** Looking up a category ignores the case of the query: two queries that
      differ only in case select the same products. */
  lemma LookupIgnoresCase(store: CSVDataLoader, s: string, t: string)
    requires SameUpToCase(s, t)
    ensures store.GetProdottiPerCategoria(s) == store.GetProdottiPerCategoria(t)
  {
    if s != "" {
      PulisciIgnoresCase(s, t);
    }
  }

  /** One step of `MappaRighe`: appending the product loaded from the next
      row keeps every position equal to its loaded row. */
  lemma LoadedAppend(rows: seq<Row>, loaded: seq<Product>, next: Product)
    requires |loaded| < |rows|
    requires forall i :: 0 <= i < |loaded| ==> loaded[i] == LoadedProduct(rows[i], i)
    requires next == LoadedProduct(rows[|loaded|], |loaded|)
    ensures forall i :: 0 <= i <= |loaded| ==> (loaded + [next])[i] == LoadedProduct(rows[i], i)
  {
  }

  /** One step of collecting values: appending the value of `p` when it is
      new and non-empty keeps the collection duplicate-free and equal, as a
      set, to the values of the products seen so far. */
  lemma CollectValue(valori: seq<string>, seen: seq<Product>, p: Product, campo: Campo, next: seq<string>)
    requires NoDuplicates(valori) && Elements(valori) == ValueSet(seen, campo)
    requires var v := Value(p.normalizzato, campo);
             next == if v != "" && v !in valori then valori + [v] else valori
    ensures NoDuplicates(next) && Elements(next) == ValueSet(seen + [p], campo)
  {
    ValueSetSnoc(seen, p, campo);
    var v := Value(p.normalizzato, campo);
    if v != "" && v !in valori {
      AppendNew(valori, v);
    }
  }

  /** `ValueSet` grows by the value of the product appended, when non-empty. */
  lemma ValueSetSnoc(seen: seq<Product>, p: Product, campo: Campo)
    ensures var v := Value(p.normalizzato, campo);
            ValueSet(seen + [p], campo) == ValueSet(seen, campo) + (if v != "" then {v} else {})
  {
    assert (seen + [p])[..|seen|] == seen;
  }

  /** Appending a new string keeps a sequence duplicate-free. */
  lemma AppendNew(valori: seq<string>, v: string)
    requires NoDuplicates(valori) && v !in valori
    ensures NoDuplicates(valori + [v]) && Elements(valori + [v]) == Elements(valori) + {v}
  {
    assert multiset(valori + [v]) == multiset(valori) + multiset{v};
  }
}
