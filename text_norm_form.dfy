/** The single-record form: the validator and the payload that `submit`
    builds from the four normalised text fields. */
module TextNormForm {
  import opened JsString
  import K = KhmerUnicodeNormalizer
  import opened Options

  /** The record `submit` sends. */
  datatype Payload = Payload(
    rawText: string, normalizedText: string, types: seq<string>,
    spanRawText: string, spanNormalizedText: string, spanTypes: seq<string>)

  const RawRequired: string := "Raw Text is required."
  const NormRequired: string := "Normalized Text is required."
  const TypesRequired: string := "Select at least one Type."
  const SpanNormRequired: string := "Span Normalized Text is required when Span Raw Text is provided."

  /** What `validate` accepts: non-blank raw and normalized text, at least
      one type, and a non-blank span normalized text whenever the span raw
      text is not blank. */
  predicate PayloadIsValid(p: Payload) {
    && Trim(p.rawText) != [] && Trim(p.normalizedText) != [] && |p.types| > 0
    && (Trim(p.spanRawText) != [] ==> Trim(p.spanNormalizedText) != [])
  }

  /** `validate`: `""` exactly for a valid payload; otherwise the message of
      the first failing check, in the order raw, normalized, types, span. */
  function Validate(p: Payload): (msg: string)
    ensures msg == [] <==> PayloadIsValid(p)
    ensures Trim(p.rawText) == [] ==> msg == RawRequired
    ensures Trim(p.rawText) != [] && Trim(p.normalizedText) == [] ==> msg == NormRequired
    ensures Trim(p.rawText) != [] && Trim(p.normalizedText) != [] && p.types == [] ==> msg == TypesRequired
    ensures (Trim(p.rawText) != [] && Trim(p.normalizedText) != [] && p.types != []
             && Trim(p.spanRawText) != [] && Trim(p.spanNormalizedText) == []) ==> msg == SpanNormRequired
  {
    if Trim(p.rawText) == [] then RawRequired
    else if Trim(p.normalizedText) == [] then NormRequired
    else if |p.types| == 0 then TypesRequired
    else if Trim(p.spanRawText) != [] && Trim(p.spanNormalizedText) == [] then SpanNormRequired
    else []
  }

  /** The payload object of `submit`, from the normaliser's results for
      the raw, normalized, span raw and span normalized texts: the span
      fields, and the span types copied from `types`, are kept only when
      the normalised span raw text is not blank. */
  function PayloadOf(r1: K.Correction, r2: K.Correction, r3: K.Correction, r4: K.Correction, types: seq<string>): (p: Payload)
    ensures p.rawText == r1.text && p.normalizedText == r2.text && p.types == types
    ensures Trim(r3.text) == [] ==> p.spanRawText == [] && p.spanNormalizedText == [] && p.spanTypes == []
    ensures Trim(r3.text) != [] ==> p.spanRawText == r3.text && p.spanNormalizedText == r4.text && p.spanTypes == types
  {
    var sr := Trim(r3.text);
    Payload(
      r1.text, r2.text, types,
      if sr != [] then r3.text else [],
      if sr != [] then r4.text else [],
      if sr != [] then types else [])
  }

  /** The span types follow the span: they are present exactly when the
      span raw text is, and they are then the record's types. Since the
      normaliser's output is trimmed, "not blank" is "not empty". */
  lemma SpanTypesFollowSpan(r1: K.Correction, r2: K.Correction, r3: K.Correction, r4: K.Correction, types: seq<string>)
    requires K.Clean(r3.text)
    ensures var p := PayloadOf(r1, r2, r3, r4, types);
      && (p.spanRawText != [] <==> Trim(r3.text) != [])
      && (p.spanRawText != [] ==> p.spanTypes == p.types)
      && (p.spanRawText == [] ==> p.spanNormalizedText == [] && p.spanTypes == [])
  {
    TrimTrimmed(r3.text);
  }

  /** A payload that passes validation meets the record's rule: a span raw
      text comes with a span normalized text and with the record's own,
      non-empty, types. */
  lemma ValidPayloadHasSpanParts(r1: K.Correction, r2: K.Correction, r3: K.Correction, r4: K.Correction, types: seq<string>)
    requires K.Clean(r3.text)
    requires Validate(PayloadOf(r1, r2, r3, r4, types)) == []
    ensures var p := PayloadOf(r1, r2, r3, r4, types);
      p.spanRawText != [] ==> Trim(p.spanNormalizedText) != [] && p.spanTypes == types && types != []
  {
    SpanTypesFollowSpan(r1, r2, r3, r4, types);
  }

  // ---------------------------------------------------------------------
  // submit

  /** The form's state: its five inputs, the error line and the four
      "corrected" warnings. */
  datatype Fields = Fields(
    rawText: string, normalizedText: string, types: seq<string>,
    spanRawText: string, spanNormalizedText: string,
    error: string, rawWarn: bool, normWarn: bool, spanRawWarn: bool, spanNormWarn: bool)

  /** What `submit` does up to the request, on values, given the
      normaliser's results for the four texts: the state after it and the
      payload it sends, if any. */
  function SubmitWith(f: Fields, r1: K.Correction, r2: K.Correction, r3: K.Correction, r4: K.Correction)
    : (Fields, Option<Payload>)
  {
    var p := PayloadOf(r1, r2, r3, r4, f.types);
    var msg := Validate(p);
    (Fields(p.rawText, p.normalizedText, f.types, p.spanRawText, p.spanNormalizedText, msg,
            f.rawWarn || r1.corrected, f.normWarn || r2.corrected,
            f.spanRawWarn || r3.corrected, f.spanNormWarn || r4.corrected),
     if msg == [] then Some(p) else None)
  }

  /** The payload `submit` builds from the form's state. */
  function PayloadFrom(nfc: string -> string, f: Fields): Payload {
    PayloadOf(K.Normalization(nfc, f.rawText), K.Normalization(nfc, f.normalizedText),
              K.Normalization(nfc, f.spanRawText), K.Normalization(nfc, f.spanNormalizedText), f.types)
  }

  /** `submit` with `normalizeKhmerEncoding` applied to the four texts. */
  function Submitted(nfc: string -> string, f: Fields): (Fields, Option<Payload>) {
    SubmitWith(f, K.Normalization(nfc, f.rawText), K.Normalization(nfc, f.normalizedText),
               K.Normalization(nfc, f.spanRawText), K.Normalization(nfc, f.spanNormalizedText))
  }

  /** After `submit` the texts are the payload's, the types are kept, a
      warning is raised for every field the normaliser corrected and none
      is lowered, the error is the validation message, and the payload
      goes out exactly when it is valid. */
  lemma SubmittedState(f: Fields, r1: K.Correction, r2: K.Correction, r3: K.Correction, r4: K.Correction)
    ensures var (g, sent) := SubmitWith(f, r1, r2, r3, r4);
      var p := PayloadOf(r1, r2, r3, r4, f.types);
      && g.rawText == p.rawText && g.normalizedText == p.normalizedText
      && g.spanRawText == p.spanRawText && g.spanNormalizedText == p.spanNormalizedText
      && g.types == f.types && g.error == Validate(p)
      && (sent.Some? <==> PayloadIsValid(p)) && (sent.Some? ==> sent.value == p)
      && (g.rawWarn <==> f.rawWarn || r1.corrected) && (g.normWarn <==> f.normWarn || r2.corrected)
      && (g.spanRawWarn <==> f.spanRawWarn || r3.corrected) && (g.spanNormWarn <==> f.spanNormWarn || r4.corrected)
  {
  }

  /** Every text of the payload is clean: the normaliser's output, or
      empty. */
  lemma PayloadTextsClean(nfc: string -> string, f: Fields)
    ensures var p := PayloadFrom(nfc, f);
      K.Clean(p.rawText) && K.Clean(p.normalizedText) && K.Clean(p.spanRawText) && K.Clean(p.spanNormalizedText)
  {
  }

  /** A payload `submit` sends is `PayloadFrom` and meets the record's
      rule: clean, non-blank raw and normalized texts, at least one type,
      and a span raw text only together with a non-blank span normalized
      text and with the record's own types as span types. */
  lemma SentPayloadMeetsRule(nfc: string -> string, f: Fields)
    ensures var sent := Submitted(nfc, f).1;
      sent.Some? ==>
        var p := sent.value;
        && p == PayloadFrom(nfc, f)
        && K.Clean(p.rawText) && p.rawText != [] && K.Clean(p.normalizedText) && p.normalizedText != []
        && p.types == f.types && p.types != []
        && (p.spanRawText != [] ==> p.spanNormalizedText != [] && p.spanTypes == p.types)
        && (p.spanRawText == [] ==> p.spanNormalizedText == [] && p.spanTypes == [])
  {
    var r1, r2 := K.Normalization(nfc, f.rawText), K.Normalization(nfc, f.normalizedText);
    var r3, r4 := K.Normalization(nfc, f.spanRawText), K.Normalization(nfc, f.spanNormalizedText);
    SubmittedState(f, r1, r2, r3, r4);
    SpanTypesFollowSpan(r1, r2, r3, r4, f.types);
  }

  /** Validation runs on the normalised text: a raw text made only of
      whitespace and removed invisible code points, which NFC leaves as it
      is, is rejected with the raw-text message, and the raw field is
      emptied. */
  lemma BlankRawTextRejected(nfc: string -> string, f: Fields)
    requires nfc(f.rawText) == f.rawText
    requires forall i :: 0 <= i < |f.rawText| ==> !K.IsVisible(f.rawText[i])
    ensures var (g, sent) := Submitted(nfc, f);
      sent == None && g.error == RawRequired && g.rawText == []
  {
    K.CleanupOfBlank(nfc, f.rawText);
    assert K.Normalization(nfc, f.rawText).text == [];
  }

  /** `submit` on the form's state as a value: the four texts go through
      `normalizeKhmerEncoding`, then the payload is built and validated. */
  method SubmitState(nfc: string -> string, f: Fields) returns (g: Fields, sent: Option<Payload>)
    ensures (g, sent) == Submitted(nfc, f)
  {
    var r1 := K.NormalizeKhmerEncoding(nfc, f.rawText);
    var r2 := K.NormalizeKhmerEncoding(nfc, f.normalizedText);
    var r3 := K.NormalizeKhmerEncoding(nfc, f.spanRawText);
    var r4 := K.NormalizeKhmerEncoding(nfc, f.spanNormalizedText);
    var payload := PayloadOf(r1, r2, r3, r4, f.types);
    var msg := Validate(payload);
    // each `if (rK.corrected) setWarn(true)` leaves the flag `warn || rK.corrected`
    g := Fields(payload.rawText, payload.normalizedText, f.types,
                payload.spanRawText, payload.spanNormalizedText, msg,
                f.rawWarn || r1.corrected, f.normWarn || r2.corrected,
                f.spanRawWarn || r3.corrected, f.spanNormWarn || r4.corrected);
    sent := if msg == [] then Some(payload) else None;
    assert (g, sent) == SubmitWith(f, r1, r2, r3, r4);
  }

  /** The form state `submit` reads and writes. */
  class Form {
    var rawText: string
    var normalizedText: string
    var types: seq<string>
    var spanRawText: string
    var spanNormalizedText: string
    var error: string
    var rawWarn: bool
    var normWarn: bool
    var spanRawWarn: bool
    var spanNormWarn: bool

    /** The fields, as one value. */
    function State(): Fields
      reads this
    {
      Fields(rawText, normalizedText, types, spanRawText, spanNormalizedText,
             error, rawWarn, normWarn, spanRawWarn, spanNormWarn)
    }

    /** The state the form opens with for a new record. */
    constructor ()
      ensures State() == Fields([], [], [], [], [], [], false, false, false, false)
    {
      rawText, normalizedText, types := [], [], [];
      spanRawText, spanNormalizedText, error := [], [], [];
      rawWarn, normWarn, spanRawWarn, spanNormWarn := false, false, false, false;
    }

    /** The `set...` calls: the form takes the state `g`. */
    method Store(g: Fields)
      modifies this
      ensures State() == g
    {
      rawText, normalizedText, types := g.rawText, g.normalizedText, g.types;
      spanRawText, spanNormalizedText, error := g.spanRawText, g.spanNormalizedText, g.error;
      rawWarn, normWarn, spanRawWarn, spanNormWarn := g.rawWarn, g.normWarn, g.spanRawWarn, g.spanNormWarn;
    }

    /** `submit` up to the request: the form's new state and the payload
        sent are those of `Submitted`. */
    method Submit(nfc: string -> string) returns (sent: Option<Payload>)
      modifies this
      ensures (State(), sent) == Submitted(nfc, old(State()))
    {
      var g: Fields;
      g, sent := SubmitState(nfc, State());
      Store(g);
    }
  }
}
