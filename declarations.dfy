/** Declarations: append-only statements that a habit was done on a date, required by gated habits. */
module Declarations {
  import opened Errors
  import opened Text
  import opened Dates
  import opened Store

  /** `d` followed by the counter padded to six digits. */
  function DeclarationId(n: nat): string {
    NumberedId("d", n, 6)
  }

  /** `next_declaration_id`. */
  method NextDeclarationId(db: Db) returns (id: string)
    modifies db`nextDeclarationNumber
    ensures old(db.ValidShape()) ==> db.ValidShape()
    ensures id == DeclarationId(old(db.nextDeclarationNumber))
    ensures db.nextDeclarationNumber == old(db.nextDeclarationNumber) + 1
  {
    var n := db.nextDeclarationNumber;
    id := DeclarationId(n);
    db.nextDeclarationNumber := n + 1;
  }

  /**
   * The declaration `declare` builds under number `n`: the date must parse,
   * the timestamp must be valid RFC 3339 (`tsValid`), and the trimmed text
   * must not be empty. The timestamp and text are stored trimmed.
   */
  function NewDeclaration(n: nat, habitId: string, date: string, ts: string, text: string, tsValid: string -> bool)
    : (r: Result<Declaration>)
    ensures r.Ok? <==> ParseDate(date).Ok? && tsValid(ts) && Trim(text) != []
    ensures r.Err? ==> r.error == Usage
    ensures r.Ok? ==> r.value == Declaration(DeclarationId(n), habitId, date, Trim(ts), Trim(text))
  {
    if ParseDate(date).Err? || !tsValid(ts) then Err(Usage)
    else
      var t := Trim(text);
      if t == [] then Err(Usage) else Ok(Declaration(DeclarationId(n), habitId, date, Trim(ts), t))
  }

  /** `declare`: on success exactly one declaration is appended under the next number; on failure nothing changes. */
  method Declare(db: Db, habitId: string, date: string, ts: string, text: string, tsValid: string -> bool)
    returns (r: Result<Declaration>)
    modifies db`declarations, db`nextDeclarationNumber
    ensures old(db.ValidShape()) ==> db.ValidShape()
    ensures r == NewDeclaration(old(db.nextDeclarationNumber), habitId, date, ts, text, tsValid)
    ensures r.Err? ==> db.declarations == old(db.declarations) && db.nextDeclarationNumber == old(db.nextDeclarationNumber)
    ensures r.Ok? ==> db.declarations == old(db.declarations) + [r.value]
    ensures r.Ok? ==> db.nextDeclarationNumber == old(db.nextDeclarationNumber) + 1
  {
    if ParseDate(date).Err? || !tsValid(ts) {
      return Err(Usage);
    }
    var t := Trim(text);
    if t == [] {
      return Err(Usage);
    }
    var decl := Append(db, habitId, date, Trim(ts), t);
    r := Ok(decl);
  }

  /** The successful tail of `declare`: number the declaration and push it. */
  method Append(db: Db, habitId: string, date: string, ts: string, text: string) returns (decl: Declaration)
    modifies db`declarations, db`nextDeclarationNumber
    ensures old(db.ValidShape()) ==> db.ValidShape()
    ensures decl == Declaration(DeclarationId(old(db.nextDeclarationNumber)), habitId, date, ts, text)
    ensures db.declarations == old(db.declarations) + [decl]
    ensures db.nextDeclarationNumber == old(db.nextDeclarationNumber) + 1
  {
    var id := NextDeclarationId(db);
    decl := Declaration(id, habitId, date, ts, text);
    db.declarations := db.declarations + [decl];
  }

  /** `has_declaration`: some declaration names the habit and the date. */
  function HasDeclaration(ds: seq<Declaration>, habitId: string, date: string): (b: bool)
    ensures b <==> exists i :: 0 <= i < |ds| && ds[i].habitId == habitId && ds[i].date == date
  {
    if ds == [] then false
    else
      (ds[0].habitId == habitId && ds[0].date == date)
      || (assert forall i :: 1 <= i < |ds| ==> ds[i] == ds[1..][i - 1]; HasDeclaration(ds[1..], habitId, date))
  }

  /** Declarations are never removed, so appending keeps every existing declaration visible. */
  lemma {:induction false} HasDeclarationMonotone(ds: seq<Declaration>, more: seq<Declaration>, habitId: string, date: string)
    requires HasDeclaration(ds, habitId, date)
    ensures HasDeclaration(ds + more, habitId, date)
  {
    var i :| 0 <= i < |ds| && ds[i].habitId == habitId && ds[i].date == date;
    assert (ds + more)[i] == ds[i];
  }

  /** After a successful declaration the habit is declared for that date. */
  lemma {:induction false} DeclaredAfterDeclare(ds: seq<Declaration>, d: Declaration)
    ensures HasDeclaration(ds + [d], d.habitId, d.date)
  {
    assert (ds + [d])[|ds|] == d;
  }
}
