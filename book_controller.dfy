/**
 * The conditional-request rules of the book controller (the file declares
 * `class BarController`): turning an `If-Match` header into the version the
 * service compares, refusing requests without the header, and turning the
 * number of deleted rows into a status. The service itself is external: it
 * is passed in as a function of the version, so a reply that does not depend
 * on that function is a reply given without calling the service.
 */
module BookController {
  import opened JavaLang

  /** What a handler produces: a response, or an exception that escapes it. */
  datatype Reply = Respond(status: int, etag: Option<JString>) | Raise(error: Exception)

  const Quote: CodeUnit := '"' as int
  const Comma: CodeUnit := ',' as int

  /** The header is absent or empty: `ifMatchValue == null || ifMatchValue.isEmpty()`. */
  predicate Missing(ifMatch: Option<JString>) {
    ifMatch.None? || ifMatch.value == []
  }

  /**
   * `getVersionFromIfMatchHeader`: a header that starts with '"' loses its
   * first and last code units before `Long.parseLong`; any other header is
   * parsed whole.
   */
  function VersionFromIfMatch(header: JString): (r: Result<int>)
    ensures r.Ok? ==> MinLong <= r.value <= MaxLong
    ensures r.Thrown? ==> r.error in {IndexOutOfBounds, NumberFormat}
    ensures r.Thrown? && r.error == IndexOutOfBounds <==> header == [Quote]
    ensures |header| >= 2 && header[0] == Quote ==> r == ParseLong(header[1..|header| - 1])
    ensures |header| == 0 || header[0] != Quote ==> r == ParseLong(header)
  {
    if |header| > 0 && header[0] == Quote then
      if |header| - 1 < 1 then Thrown(IndexOutOfBounds)
      else ParseLong(header[1..|header| - 1])
    else ParseLong(header)
  }

  /**
   * `upsert` (PUT): 400 without the header; otherwise the parsed version
   * goes to the service, whose new version is the ETag of a 200. An
   * exception from the parse or from the service escapes.
   */
  function Upsert(ifMatch: Option<JString>, update: Int64 -> Result<Int64>): (r: Reply)
    ensures Missing(ifMatch) ==> r == Respond(400, None)
    ensures !Missing(ifMatch) && VersionFromIfMatch(ifMatch.value).Thrown? ==>
      r == Raise(VersionFromIfMatch(ifMatch.value).error)
    ensures !Missing(ifMatch) && VersionFromIfMatch(ifMatch.value).Ok? ==>
      var v := VersionFromIfMatch(ifMatch.value).value;
      && (update(v).Ok? ==> r == Respond(200, Some(DecimalText(update(v).value))))
      && (update(v).Thrown? ==> r == Raise(update(v).error))
    ensures r.Respond? && r.status == 200 ==>
      && !Missing(ifMatch)
      && VersionFromIfMatch(ifMatch.value).Ok?
      && update(VersionFromIfMatch(ifMatch.value).value).Ok?
  {
    if Missing(ifMatch) then Respond(400, None)
    else
      match VersionFromIfMatch(ifMatch.value)
      case Thrown(e) => Raise(e)
      case Ok(v) =>
        match update(v)
        case Thrown(e) => Raise(e)
        case Ok(bar) => Respond(200, Some(DecimalText(bar)))
  }

  /** `partialUpdate` (PATCH): as `Upsert`, but a missing header raises a 400 status. */
  function PartialUpdate(ifMatch: Option<JString>, partialUpdate: Int64 -> Result<Int64>): (r: Reply)
    ensures Missing(ifMatch) ==> r == Raise(ResponseStatus(400))
    ensures !Missing(ifMatch) && VersionFromIfMatch(ifMatch.value).Thrown? ==>
      r == Raise(VersionFromIfMatch(ifMatch.value).error)
    ensures !Missing(ifMatch) && VersionFromIfMatch(ifMatch.value).Ok? ==>
      var v := VersionFromIfMatch(ifMatch.value).value;
      && (partialUpdate(v).Ok? ==> r == Respond(200, Some(DecimalText(partialUpdate(v).value))))
      && (partialUpdate(v).Thrown? ==> r == Raise(partialUpdate(v).error))
    ensures r.Respond? ==> r.status == 200
  {
    if Missing(ifMatch) then Raise(ResponseStatus(400))
    else
      match VersionFromIfMatch(ifMatch.value)
      case Thrown(e) => Raise(e)
      case Ok(v) =>
        match partialUpdate(v)
        case Thrown(e) => Raise(e)
        case Ok(bar) => Respond(200, Some(DecimalText(bar)))
  }

  /** `count == 1 ? 204 : 409`. */
  function DeleteStatus(count: Int32): (status: int)
    ensures status == 204 || status == 409
    ensures status == 204 <==> count == 1
  {
    if count == 1 then 204 else 409
  }

  /**
   * `delete`: a missing header raises a 400 status; otherwise the parsed
   * version goes to the service, and the number of rows it deleted decides
   * the status. An exception from the parse or from the service escapes.
   */
  function Delete(ifMatch: Option<JString>, deleteById: Int64 -> Result<Int32>): (r: Reply)
    ensures Missing(ifMatch) ==> r == Raise(ResponseStatus(400))
    ensures !Missing(ifMatch) && VersionFromIfMatch(ifMatch.value).Thrown? ==>
      r == Raise(VersionFromIfMatch(ifMatch.value).error)
    ensures !Missing(ifMatch) && VersionFromIfMatch(ifMatch.value).Ok? ==>
      var v := VersionFromIfMatch(ifMatch.value).value;
      && (deleteById(v).Ok? ==> r == Respond(DeleteStatus(deleteById(v).value), None))
      && (deleteById(v).Thrown? ==> r == Raise(deleteById(v).error))
    ensures r.Respond? ==> r.etag == None && (r.status == 204 || r.status == 409)
  {
    if Missing(ifMatch) then Raise(ResponseStatus(400))
    else
      match VersionFromIfMatch(ifMatch.value)
      case Thrown(e) => Raise(e)
      case Ok(v) =>
        match deleteById(v)
        case Thrown(e) => Raise(e)
        case Ok(count) => Respond(DeleteStatus(count), None)
  }

  // ---------------------------------------------------------------------
  // Parsing the If-Match header

  /**
   * Every version the handlers hand out as an ETag (`Long.toString`) comes
   * back as that version, sent bare or wrapped in double quotes.
   */
  lemma IfMatchRoundTrip(v: Int64)
    ensures VersionFromIfMatch(DecimalText(v)) == Ok(v)
    ensures VersionFromIfMatch([Quote] + DecimalText(v) + [Quote]) == Ok(v)
  {
    ParseLongOfDecimalText(v);
    var q := [Quote] + DecimalText(v) + [Quote];
    assert q[1..|q| - 1] == DecimalText(v);
  }

  /** The ETag of a successful PUT, sent back as If-Match, selects the version it carries. */
  lemma UpsertETagIsAcceptedBack(ifMatch: Option<JString>, update: Int64 -> Result<Int64>)
    requires Upsert(ifMatch, update).Respond? && Upsert(ifMatch, update).status == 200
    ensures VersionFromIfMatch(Upsert(ifMatch, update).etag.value) ==
            Ok(update(VersionFromIfMatch(ifMatch.value).value).value)
  {
    IfMatchRoundTrip(update(VersionFromIfMatch(ifMatch.value).value).value);
  }

  /**
   * The closing code unit of a quoted header is never checked: `"12x`
   * gives 12.
   */
  lemma ClosingQuoteUnchecked(body: JString, last: CodeUnit)
    ensures VersionFromIfMatch([Quote] + body + [last]) == ParseLong(body)
  {
    var h := [Quote] + body + [last];
    assert h[1..|h| - 1] == body;
  }

  /**
   * Only the last code unit is dropped: when a quoted header ends in a
   * character above U+FFFF, as in `"12😀`, its high surrogate stays in the
   * parsed part and the parse fails.
   */
  lemma SupplementaryLastCharacterRejected(body: JString, c: char)
    requires c as int >= 0x1_0000
    ensures VersionFromIfMatch([Quote] + body + Utf16([c])) == Thrown(NumberFormat)
  {
    Utf16OfSupplementary(c);
    var h := [Quote] + body + Utf16([c]);
    var p := h[1..|h| - 1];
    assert p == body + [Utf16([c])[0]];
    assert !IsDigit(p[|p| - 1]);
    if p[0] == Minus || p[0] == Plus {
      assert p[1..][|p| - 2] == p[|p| - 1];
    }
  }

  /**
   * A comma inside the parsed part, as in a list of entity tags, always
   * fails: anywhere in a bare header, between the end units of a quoted one.
   */
  lemma ListsRejected(header: JString, i: int)
    requires 0 <= i < |header| && header[i] == Comma
    requires header[0] == Quote ==> 0 < i < |header| - 1
    ensures VersionFromIfMatch(header) == Thrown(NumberFormat)
  {
    var body := if header[0] == Quote then header[1..|header| - 1] else header;
    var j := if header[0] == Quote then i - 1 else i;
    assert body[j] == Comma;
    if body[0] == Minus || body[0] == Plus {
      if j == 0 {
        assert false;
      } else {
        assert body[1..][j - 1] == Comma;
      }
    }
  }

  /**
   * Forms that section 13.1.1 of RFC 9110 allows but the parser refuses: a
   * weak tag `W/"5"` and the wildcard `*`; and the malformed `"` and `""`.
   */
  lemma RejectedForms(opaqueTag: JString)
    ensures VersionFromIfMatch(Utf16("W/\"") + opaqueTag + [Quote]) == Thrown(NumberFormat)
    ensures VersionFromIfMatch(Utf16("*")) == Thrown(NumberFormat)
    ensures VersionFromIfMatch([Quote]) == Thrown(IndexOutOfBounds)
    ensures VersionFromIfMatch([Quote, Quote]) == Thrown(NumberFormat)
  {
    var w := Utf16("W/\"") + opaqueTag + [Quote];
    assert Utf16("W/\"")[0] == 'W' as int;
    assert w[0] == 'W' as int;
    assert Utf16("*") == ['*' as int];
    assert [Quote, Quote][1..1] == [];
  }

  // ---------------------------------------------------------------------
  // The handlers

  /** Without the header, none of the three handlers depends on the service: it is never called. */
  lemma MissingHeaderNeverCallsService(ifMatch: Option<JString>,
                                       u1: Int64 -> Result<Int64>, u2: Int64 -> Result<Int64>,
                                       d1: Int64 -> Result<Int32>, d2: Int64 -> Result<Int32>)
    requires Missing(ifMatch)
    ensures Upsert(ifMatch, u1) == Upsert(ifMatch, u2) == Respond(400, None)
    ensures PartialUpdate(ifMatch, u1) == PartialUpdate(ifMatch, u2) == Raise(ResponseStatus(400))
    ensures Delete(ifMatch, d1) == Delete(ifMatch, d2) == Raise(ResponseStatus(400))
  {
  }

  /**
   * With the header present, PATCH answers exactly as PUT does; the two
   * differ only in how they refuse a request without it.
   */
  lemma PartialUpdateAgreesWithUpsert(ifMatch: Option<JString>, service: Int64 -> Result<Int64>)
    ensures !Missing(ifMatch) ==> PartialUpdate(ifMatch, service) == Upsert(ifMatch, service)
    ensures Missing(ifMatch) ==> PartialUpdate(ifMatch, service) != Upsert(ifMatch, service)
  {
  }

  /**
   * A DELETE whose version no longer matches (no row deleted) is answered
   * 409, whether the ETag is sent bare or quoted, where section 13.1.1 of
   * RFC 9110 calls for 412 Precondition Failed.
   */
  lemma StaleDeleteIs409(v: Int64, deleteById: Int64 -> Result<Int32>)
    requires deleteById(v) == Ok(0)
    ensures Delete(Some(DecimalText(v)), deleteById) == Respond(409, None)
    ensures Delete(Some([Quote] + DecimalText(v) + [Quote]), deleteById) == Respond(409, None)
  {
    IfMatchRoundTrip(v);
  }
}
