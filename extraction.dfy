/** `extract_rdv_data`: the record built from one open appointment overlay. */
module Extraction {
  import opened Wrappers
  import opened PyText
  import opened Fields

  /** What the page shows once an appointment is open, one entry per lookup.
      A text is None when its element is not found or reading it raises;
      the sex buttons are the (possibly empty) list the search returns. */
  datatype Modal = Modal(
    client: Option<string>,
    sexButtons: seq<Button>,
    postal: Option<PostalElement>,
    prestation: Option<string>,
    collaboratrice: Option<string>,
    duree: Option<string>,
    prix: Option<string>,
    cabine: Option<string>)

  /** One appointment record, with the keys of the source's dictionary. */
  datatype Record = Record(
    date: string,
    client: string,
    sexe: string,
    codePostal: string,
    prestation: string,
    collaboratrice: string,
    dureeMin: int,
    prix: real,
    cabine: string,
    statut: string)

  const DefaultSexe := "Autre"
  const Honoured := "Honoré"

  /** The record every extraction starts from: the day, empty texts, sex
      "Autre", no duration, no price, status "Honoré". */
  function DefaultRecord(today: string): (r: Record)
    ensures r.date == today && r.sexe == DefaultSexe && r.statut == Honoured
    ensures r.client == "" && r.codePostal == "" && r.prestation == ""
    ensures r.collaboratrice == "" && r.cabine == ""
    ensures r.dureeMin == 0 && r.prix == 0.0
  {
    Record(today, "", DefaultSexe, "", "", "", 0, 0.0, "", Honoured)
  }

  /** A text field as the record holds it: a missing element leaves "". */
  function PostalOr(e: Option<PostalElement>): string {
    match e
    case None => ""
    case Some(el) => PostalCode(el)
  }

  /** The record a modal yields when every field is read; acceptance aside. */
  function Fill(m: Modal, today: string): Record {
    Record(today, TextOr(m.client), SexOf(m.sexButtons), PostalOr(m.postal),
           TextOr(m.prestation), TextOr(m.collaboratrice), DurationOr0(m.duree),
           PriceOr0(m.prix), TextOr(m.cabine), Honoured)
  }

  /** The extraction: the filled record, kept only when it names a client or
      a service. */
  function Extract(m: Modal, today: string): Option<Record> {
    var r := Fill(m, today);
    if r.client != "" || r.prestation != "" then Some(r) else None
  }

  /** A text lookup yields something non-blank. */
  predicate HasText(raw: Option<string>) {
    raw.Some? && Strip(raw.value) != ""
  }

  /** `extract_rdv_data`: start from the default record, overwrite each field
      whose lookup and conversion succeed, then accept or reject. */
  method ExtractRdvData(m: Modal, today: string) returns (data: Option<Record>)
    ensures data == Extract(m, today)
  {
    // After each step, `rec` is the filled record except that the fields not
    // read yet still hold their defaults.
    ghost var full := Fill(m, today);
    var rec := DefaultRecord(today);
    if m.client.Some? {
      rec := rec.(client := Strip(m.client.value));
    }
    var sexe := SelectSex(m.sexButtons);
    rec := rec.(sexe := sexe);
    assert rec == full.(codePostal := "", prestation := "", collaboratrice := "", dureeMin := 0, prix := 0.0, cabine := "");
    if m.postal.Some? {
      rec := rec.(codePostal := PostalCode(m.postal.value));
    }
    assert rec == full.(prestation := "", collaboratrice := "", dureeMin := 0, prix := 0.0, cabine := "");
    if m.prestation.Some? {
      rec := rec.(prestation := Strip(m.prestation.value));
    }
    assert rec == full.(collaboratrice := "", dureeMin := 0, prix := 0.0, cabine := "");
    if m.collaboratrice.Some? {
      rec := rec.(collaboratrice := Strip(m.collaboratrice.value));
    }
    assert rec == full.(dureeMin := 0, prix := 0.0, cabine := "");
    if m.duree.Some? {
      var d := ParseDuration(m.duree.value);
      if d.Some? {
        rec := rec.(dureeMin := d.value);
      }
    }
    assert rec == full.(prix := 0.0, cabine := "");
    if m.prix.Some? {
      var p := ParsePrice(m.prix.value);
      if p.Some? {
        rec := rec.(prix := p.value);
      }
    }
    assert rec == full.(cabine := "");
    if m.cabine.Some? {
      rec := rec.(cabine := Strip(m.cabine.value));
    }
    assert rec == full;
    if rec.client != "" || rec.prestation != "" {
      data := Some(rec);
    } else {
      data := None;
    }
  }

  /** A record is returned exactly when the client or the service element
      holds non-blank text. */
  lemma AcceptedIff(m: Modal, today: string)
    ensures Extract(m, today).Some? <==> HasText(m.client) || HasText(m.prestation)
  {
  }

  /** An accepted record carries the day, the status "Honoré", and a
      non-empty client or service. */
  lemma AcceptedShape(m: Modal, today: string)
    requires Extract(m, today).Some?
    ensures var r := Extract(m, today).value;
      r.date == today && r.statut == Honoured && (r.client != "" || r.prestation != "")
  {
  }

  /** A modal where nothing is found gives no record. */
  lemma EmptyModalRejected(today: string)
    ensures Extract(Modal(None, [], None, None, None, None, None, None), today) == None
  {
  }

  /** A duration text that does not parse counts as a missing duration. */
  lemma UnparseableDurationIsMissing(m: Modal, today: string)
    requires m.duree.Some? && ParseDuration(m.duree.value).None?
    ensures Extract(m, today) == Extract(m.(duree := None), today)
  {
  }

  /** A price text that does not parse counts as a missing price. */
  lemma UnparseablePriceIsMissing(m: Modal, today: string)
    requires m.prix.Some? && ParsePrice(m.prix.value).None?
    ensures Extract(m, today) == Extract(m.(prix := None), today)
  {
  }

  /** The duration element affects the duration and nothing else: with another
      duration text, the same modal is accepted or rejected alike and the
      record differs at most in `duree_min`. */
  lemma DurationOnlyAffectsDuration(m: Modal, today: string, d: Option<string>)
    ensures Extract(m.(duree := d), today).Some? == Extract(m, today).Some?
    ensures Extract(m, today).Some? ==>
      Extract(m.(duree := d), today).value == Extract(m, today).value.(dureeMin := DurationOr0(d))
  {
  }

  /** The price element affects the price and nothing else. */
  lemma PriceOnlyAffectsPrice(m: Modal, today: string, p: Option<string>)
    ensures Extract(m.(prix := p), today).Some? == Extract(m, today).Some?
    ensures Extract(m, today).Some? ==>
      Extract(m.(prix := p), today).value == Extract(m, today).value.(prix := PriceOr0(p))
  {
  }

  /** The sex buttons affect the sex and nothing else. */
  lemma SexOnlyAffectsSex(m: Modal, today: string, bs: seq<Button>)
    ensures Extract(m.(sexButtons := bs), today).Some? == Extract(m, today).Some?
    ensures Extract(m, today).Some? ==>
      Extract(m.(sexButtons := bs), today).value == Extract(m, today).value.(sexe := SexOf(bs))
  {
  }

  /** With no minus sign in the duration text, the record's duration is not
      negative. */
  lemma RecordDurationNonNegative(m: Modal, today: string)
    requires m.duree.Some? ==> '-' !in m.duree.value
    requires Extract(m, today).Some?
    ensures Extract(m, today).value.dureeMin >= 0
  {
    if m.duree.Some? { DurationNonNegative(m.duree.value); }
  }

  /** With no minus sign in the price text, the record's price is not negative. */
  lemma RecordPriceNonNegative(m: Modal, today: string)
    requires m.prix.Some? ==> '-' !in m.prix.value
    requires Extract(m, today).Some?
    ensures Extract(m, today).value.prix >= 0.0
  {
    if m.prix.Some? { PriceNonNegative(m.prix.value); }
  }
}
