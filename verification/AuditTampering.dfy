/**
 What the hashed text of an audit event says, and when a change to one row of an accepted list goes
 unnoticed (src/modules/audit/audit.chain.service.ts).
 */
module AuditTampering {
  import opened CanonicalJson
  import opened JsonReader
  import opened Outcomes
  import opened AuditChain

  // ---- What is hashed -----------------------------------------------------------------

  function TextOrNull(text: Option<string>): Json {
    if text.Some? then Str(text.value) else Null
  }

  /** The record of an event: every field under its own name. */
  function RecordOf(p: Payload): Json {
    Obj([
      Member("correlationId", Str(p.correlationId)), Member("tenantId", Str(p.tenantId)),
      Member("userId", TextOrNull(p.userId)), Member("role", TextOrNull(p.role)), Member("action", Str(p.action)),
      Member("resourceType", TextOrNull(p.resourceType)), Member("resourceId", TextOrNull(p.resourceId)),
      Member("oldState", p.oldState), Member("newState", p.newState), Member("metadata", p.metadata),
      Member("ip", TextOrNull(p.ip)), Member("userAgent", TextOrNull(p.userAgent)),
      Member("endpoint", TextOrNull(p.endpoint)), Member("method", TextOrNull(p.httpMethod)),
      Member("statusCode", Num(p.statusCode)), Member("success", Bool(p.success)),
      Member("errorCode", TextOrNull(p.errorCode))])
  }

  lemma FieldName(p: Payload, i: nat)
    requires i < 17
    ensures RecordOf(p).members[i].key == FIELD_NAMES[i]
  {
  }

  lemma FieldValue(p: Payload, i: nat)
    requires i < 17
    ensures RecordOf(p).members[i].value == FieldValues(p)[i]
  {
  }

  lemma SeventeenFields(p: Payload)
    ensures |FIELD_NAMES| == |FieldValues(p)| == 17 && RecordOf(p).Obj? && |RecordOf(p).members| == 17
  {
  }

  lemma RecordIs(p: Payload)
    ensures |FIELD_NAMES| == |FieldValues(p)| && Record(FIELD_NAMES, FieldValues(p)) == RecordOf(p)
  {
    hide RecordOf, FieldValues;
    SeventeenFields(p);
    var record := Record(FIELD_NAMES, FieldValues(p));
    forall i | 0 <= i < 17
      ensures record.members[i] == RecordOf(p).members[i]
    {
      FieldName(p, i);
      FieldValue(p, i);
    }
    assert record.members == RecordOf(p).members;
  }

  /** The payload text of an event is JSON that reads as its record. */
  lemma PayloadTextReadsBack(p: Payload)
    ensures var r := ReadValue(PayloadText(p));
      r.Some? && Same(RecordOf(p), r.value.0) && r.value.1 == ""
  {
    hide CanonicalText, ReadValue, Same, RecordOf, Record, FieldValues;
    RecordIs(p);
    CanonicalTextReadsBack(RecordOf(p));
  }

  // ---- Altered rows -------------------------------------------------------------------

  /** The row hangs off the hash before it, and its hash and signature are those of its own content. */
  predicate Extends(c: Crypto, previous: string, row: Event) {
    && row.prevHash == previous
    && row.eventHash == c.hash(row.prevHash + "|" + PayloadText(row.payload) + "|" + c.iso(row.timestamp))
    && row.signature == c.hmac(row.payload.tenantId, row.eventHash)
  }

  function Previous(rows: seq<Event>, k: nat): string
    requires k < |rows|
  {
    if k == 0 then "GENESIS" else rows[k - 1].eventHash
  }

  /** A list is accepted exactly when each of its rows extends the ones before it. */
  lemma AcceptsIff(c: Crypto, rows: seq<Event>)
    ensures Accepts(c, rows) <==> forall k :: 0 <= k < |rows| ==> Extends(c, Previous(rows, k), rows[k])
  {
    hide PayloadText;
    forall k | 0 <= k < |rows|
      ensures RowOk(c, LastHash(rows[..k]), rows[k]) <==> Extends(c, Previous(rows, k), rows[k])
    {
      assert k > 0 ==> rows[..k][k - 1] == rows[k - 1];
    }
  }

  lemma AcceptedExtends(c: Crypto, rows: seq<Event>, k: nat)
    requires Accepts(c, rows) && k < |rows|
    ensures Extends(c, Previous(rows, k), rows[k])
  {
    hide Accepts, Extends;
    AcceptsIff(c, rows);
  }

  /** A row that carries the hash of another carries everything that the hash covers. */
  lemma SameHashSameRow(c: Crypto, texts: set<string>, e: Event, f: Event)
    requires TextFormat(c) && CollisionFree(c, texts) && RowText(c, e) in texts && RowText(c, f) in texts
    requires WellFormedPayload(e.payload) && WellFormedPayload(f.payload)
    requires Extends(c, e.prevHash, e) && Extends(c, f.prevHash, f) && e.eventHash == f.eventHash
    requires NoBar(e.prevHash) && NoBar(f.prevHash)
    ensures SameRow(e, f)
  {
    hide PayloadText, TextFormat, CollisionFree, NoBar, SamePayload, WellFormedPayload;
    NoCollision(c, texts, RowText(c, e), RowText(c, f));
    TextParts(c, e.prevHash, PayloadText(e.payload), e.timestamp, f.prevHash, PayloadText(f.payload), f.timestamp);
    PayloadTextIsInjective(e.payload, f.payload);
    SameTenant(e.payload, f.payload);
  }

  lemma SameRowExtends(c: Crypto, e: Event, f: Event)
    requires SameRow(e, f) && WellFormedPayload(e.payload) && WellFormedPayload(f.payload)
    ensures Extends(c, e.prevHash, e) <==> Extends(c, f.prevHash, f)
  {
    hide PayloadText, SamePayload, WellFormedPayload;
    PayloadTextIsInjective(e.payload, f.payload);
    SameTenant(e.payload, f.payload);
  }

  /** Putting a row with the same hash in the place of another does not touch what any other row hangs off. */
  lemma PreviousStays(rows: seq<Event>, k: nat, row: Event, j: nat)
    requires k < |rows| && j < |rows| && (row.eventHash == rows[k].eventHash || j != k + 1)
    ensures Previous(rows[k := row], j) == Previous(rows, j)
  {
  }

  /** A row that replaces the last one is accepted exactly when it extends the rest. */
  lemma LastReplaced(c: Crypto, rows: seq<Event>, row: Event)
    requires Accepts(c, rows) && rows != []
    ensures Accepts(c, rows[|rows| - 1 := row]) <==> Extends(c, Previous(rows, |rows| - 1), row)
  {
    hide Accepts, Extends;
    var n := |rows| - 1;
    var rows' := rows[n := row];
    AcceptsIff(c, rows');
    forall j | 0 <= j < |rows|
      ensures Previous(rows', j) == Previous(rows, j) && (j != n ==> Extends(c, Previous(rows', j), rows'[j]))
    {
      PreviousStays(rows, n, row, j);
      AcceptedExtends(c, rows, j);
    }
  }

  lemma SameRowAccepted(c: Crypto, rows: seq<Event>, k: nat, row: Event)
    requires Accepts(c, rows) && k < |rows| && SameRow(row, rows[k])
    requires WellFormedPayload(row.payload) && WellFormedPayload(rows[k].payload)
    ensures Accepts(c, rows[k := row])
  {
    hide Accepts, SamePayload, WellFormedPayload, PayloadText;
    var rows' := rows[k := row];
    AcceptsIff(c, rows');
    SameRowExtends(c, row, rows[k]);
    forall j | 0 <= j < |rows|
      ensures Extends(c, Previous(rows', j), rows'[j])
    {
      PreviousStays(rows, k, row, j);
      AcceptedExtends(c, rows, j);
    }
  }

  /**
   Exactly which alterations of one row go unnoticed: those that change nothing the hash or the
   signature covers, and in the last row those that are a new, correctly hashed and signed extension of
   the rest. Only the row id is covered by neither.
   */
  lemma AlterationUnnoticedIff(c: Crypto, rows: seq<Event>, k: nat, row: Event)
    requires TextFormat(c) && CollisionFree(c, RowTexts(c, rows) + {RowText(c, row)})
    requires WellFormedRows(rows) && WellFormedPayload(row.payload)
    requires Accepts(c, rows) && k < |rows|
    ensures Accepts(c, rows[k := row])
       <==> SameRow(row, rows[k]) || (k == |rows| - 1 && Extends(c, Previous(rows, k), row))
  {
    hide Accepts, SameRow, TextFormat, CollisionFree, RowText, RowTexts, Extends, NoBar, WellFormedPayload;
    if k == |rows| - 1 {
      LastReplaced(c, rows, row);
    }
    if SameRow(row, rows[k]) {
      SameRowAccepted(c, rows, k, row);
    }
    if Accepts(c, rows[k := row]) && k < |rows| - 1 {
      KeptHash(c, rows, k, row);
    }
  }

  lemma KeptHash(c: Crypto, rows: seq<Event>, k: nat, row: Event)
    requires TextFormat(c) && CollisionFree(c, RowTexts(c, rows) + {RowText(c, row)})
    requires WellFormedRows(rows) && WellFormedPayload(row.payload)
    requires k < |rows| - 1 && Accepts(c, rows) && Accepts(c, rows[k := row])
    ensures SameRow(row, rows[k])
  {
    hide Accepts, SameRow, TextFormat, CollisionFree, RowText, RowTexts, NoBar, WellFormedPayload, Extends;
    NextRowTellsHash(c, rows, k, row);
    AcceptedRow(c, rows, k);
    AcceptedRow(c, rows[k := row], k);
    SameHashSameRow(c, RowTexts(c, rows) + {RowText(c, row)}, row, rows[k]);
  }

  /** The next row hangs off the hash of the altered one as well. */
  lemma NextRowTellsHash(c: Crypto, rows: seq<Event>, k: nat, row: Event)
    requires k < |rows| - 1 && Accepts(c, rows) && Accepts(c, rows[k := row])
    ensures row.eventHash == rows[k].eventHash
  {
    hide Accepts, PayloadText;
    AcceptedExtends(c, rows, k + 1);
    AcceptedExtends(c, rows[k := row], k + 1);
  }

  lemma AcceptedRow(c: Crypto, rows: seq<Event>, k: nat)
    requires TextFormat(c) && Accepts(c, rows) && k < |rows|
    ensures Extends(c, rows[k].prevHash, rows[k]) && NoBar(rows[k].prevHash)
    ensures RowText(c, rows[k]) in RowTexts(c, rows)
    ensures WellFormedRows(rows) ==> WellFormedPayload(rows[k].payload)
  {
    hide Accepts, TextFormat, RowText, RowTexts, NoBar, WellFormedPayload, PayloadText;
    AcceptedAt(c, rows, k);
    AcceptedExtends(c, rows, k);
  }
}
