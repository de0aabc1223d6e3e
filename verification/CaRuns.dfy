/**
 Runs of the `ca` program: any sequence of steps on the index in memory, of
 commits to the index file and of restarts that load the file again.
 */
module CaRuns {
  import opened Wrappers
  import opened Calendar
  import opened Asn1Time
  import opened RevInfo
  import opened SerialText
  import opened TxtDb
  import opened CaDb

  // ----- the index file -----

  function FieldsOf(r: Row): (f: Fields)
    ensures |f| == 6
  {
    [r.typ, r.exp, r.rev, r.serial, r.file, r.name]
  }

  function RowOf(f: Fields): Row
    requires |f| == 6
  {
    Row(f[0], f[1], f[2], f[3], f[4], f[5])
  }

  function TableOf(rows: seq<Row>): (t: seq<Fields>)
    ensures |t| == |rows| && Table(t, 6)
    ensures forall i :: 0 <= i < |t| ==> t[i] == FieldsOf(rows[i])
  {
    seq(|rows|, i requires 0 <= i < |rows| => FieldsOf(rows[i]))
  }

  ghost function RowsOf(t: seq<Fields>): (rows: seq<Row>)
    requires Table(t, 6)
    ensures |rows| == |t|
    ensures forall i :: 0 <= i < |t| ==> rows[i] == RowOf(t[i])
  {
    seq(|t|, i requires 0 <= i < |t| => RowOf(t[i]))
  }

  function FileText(rows: seq<Row>): string {
    WriteAll(TableOf(rows))
  }

  /** Reading and checking the index file; None when the program refuses it. */
  ghost function Load(text: string, unique: bool, oids: OidTable): Option<Db> {
    match ReadAll(text, 6)
    case None => None
    case Some(t) =>
      var rows := RowsOf(t);
      if Loadable(rows, unique, oids) then Some(Db(rows, if unique then ValidAt(rows) else {}, unique)) else None
  }

  ghost predicate StorableRows(rows: seq<Row>) {
    forall i :: 0 <= i < |rows| ==> Storable(FieldsOf(rows[i]))
  }

  /** A committed table loads again, row for row, exactly when it is loadable and storable. */
  lemma LoadOfFileText(rows: seq<Row>, unique: bool, oids: OidTable)
    ensures Load(FileText(rows), unique, oids) == Some(Db(rows, if unique then ValidAt(rows) else {}, unique))
       <==> StorableRows(rows) && Loadable(rows, unique, oids)
  {
    FileRoundTrip(TableOf(rows), 6);
    assert RowsOf(TableOf(rows)) == rows;
    match ReadAll(FileText(rows), 6)
    case None =>
    case Some(t) => if RowsOf(t) == rows { SameTable(t, rows); }
  }

  lemma SameTable(t: seq<Fields>, rows: seq<Row>)
    requires Table(t, 6) && RowsOf(t) == rows
    ensures t == TableOf(rows)
  {
    forall i | 0 <= i < |t| ensures t[i] == TableOf(rows)[i] {
      assert rows[i] == RowOf(t[i]);
    }
  }

  // ----- the invariant in memory -----

  /** Every valid row is in the name index, and the indexed names are distinct. */
  ghost predicate IndexOk(d: Db) {
    && (forall i :: i in d.named ==> i < |d.rows|)
    && (if d.unique then ValidAt(d.rows) <= d.named && NamesDistinct(d.rows, d.named) else d.named == {})
  }

  /** Serials are distinct and the name index covers the valid rows. */
  ghost predicate Coherent(d: Db) {
    SerialsDistinct(d.rows) && IndexOk(d)
  }

  /** The loader accepts the rows, and the indexes in memory are coherent. */
  ghost predicate Good(d: Db, oids: OidTable) {
    RowsOk(d.rows, oids) && Coherent(d)
  }

  lemma GoodIsLoadable(d: Db, oids: OidTable)
    requires Good(d, oids)
    ensures Loadable(d.rows, d.unique, oids)
  {
  }

  lemma AppendSerials(rows: seq<Row>, r: Row)
    requires SerialsDistinct(rows) && FindSerial(rows, r.serial).None?
    ensures SerialsDistinct(rows + [r])
  {
    var e := rows + [r];
    forall i, j | 0 <= i < j < |e| ensures Key(e[i].serial) != Key(e[j].serial) {
      assert Key(rows[i].serial) != Key(r.serial);
    }
  }

  lemma AppendNamed(d: Db, r: Row)
    requires IndexOk(d) && d.unique && FindName(d, r.name).None?
    ensures IndexOk(Db(d.rows + [r], d.named + {|d.rows|}, true))
  {
    var e := Db(d.rows + [r], d.named + {|d.rows|}, true);
    assert ValidAt(e.rows) <= ValidAt(d.rows) + {|d.rows|};
  }

  lemma AppendUnnamed(d: Db, r: Row)
    requires IndexOk(d) && (d.unique ==> !IsValid(r))
    ensures IndexOk(d.(rows := d.rows + [r]))
  {
    var e := d.(rows := d.rows + [r]);
    if d.unique { assert ValidAt(e.rows) <= ValidAt(d.rows); }
  }

  /** Inserting keeps serials and indexed names distinct. */
  lemma InsertCoherent(d: Db, r: Row)
    requires Coherent(d) && Insert(d, r).Some?
    ensures Coherent(Insert(d, r).value)
  {
    AppendSerials(d.rows, r);
    if d.unique && IsValid(r) { AppendNamed(d, r); } else { AppendUnnamed(d, r); }
  }

  lemma ReplaceCoherent(d: Db, i: nat, r: Row)
    requires Coherent(d) && i < |d.rows| && !IsValid(r)
    requires r.serial == d.rows[i].serial && r.name == d.rows[i].name
    ensures Coherent(d.(rows := d.rows[i := r]))
  {
    var e := d.(rows := d.rows[i := r]);
    assert ValidAt(e.rows) <= ValidAt(d.rows);
  }

  lemma RevokeAtCoherent(d: Db, i: nat, c: Cert, t: RevType, arg: string, now: Date, oids: OidTable)
    requires Coherent(d) && i < |d.rows|
    ensures Coherent(RevokeAt(d, i, c, t, arg, now, oids).0)
  {
    if RevokeAt(d, i, c, t, arg, now, oids).1 {
      ReplaceCoherent(d, i, Mark(d.rows[i], RevocationText(t, arg, now, oids).value));
    }
  }

  lemma RevokeCoherent(d: Db, c: Cert, t: RevType, arg: string, now: Date, oids: OidTable)
    requires Coherent(d)
    ensures Coherent(Revoke(d, c, t, arg, now, oids).0)
  {
    match FindSerial(d.rows, Serial(c.serial))
    case Some(i) => RevokeAtCoherent(d, i, c, t, arg, now, oids);
    case None =>
      if Insert(d, NewRow(c)).Some? {
        InsertCoherent(d, NewRow(c));
        if !t.RevValid? { RevokeAtCoherent(Insert(d, NewRow(c)).value, |d.rows|, c, t, arg, now, oids); }
      }
  }

  // ----- exactly when the loader accepts the outcome of a step -----

  lemma AppendRowsOk(rows: seq<Row>, r: Row, oids: OidTable)
    requires RowsOk(rows, oids)
    ensures RowsOk(rows + [r], oids) <==> RowOk(r, oids)
  {
    assert (rows + [r])[|rows|] == r;
  }

  lemma NewRowOk(c: Cert, oids: OidTable)
    ensures RowOk(NewRow(c), oids) <==> ParseTime(c.notAfter).Some?
    ensures SerialSyntax(NewRow(c).serial)
  {
    SerialHasSyntax(c.serial);
  }

  /** A marked row passes the loader exactly when it had a type, and its expiry and its
      time of revocation can be read. */
  lemma MarkExact(r: Row, t: RevType, arg: string, now: Date, oids: OidTable)
    requires SerialSyntax(r.serial) && RevocationText(t, arg, now, oids).Some?
    ensures RowOk(Mark(r, RevocationText(t, arg, now, oids).value), oids)
       <==> r.typ != "" && ParseTime(r.exp).Some? && UtcYear(now.year)
  {
    RevocationRoundTrip(t, arg, now, oids);
    assert ParseTime("").None?;
  }

  lemma ReplaceRowsOk(rows: seq<Row>, i: nat, r: Row, oids: OidTable)
    requires i < |rows| && forall j :: 0 <= j < |rows| && j != i ==> RowOk(rows[j], oids)
    ensures RowsOk(rows[i := r], oids) <==> RowOk(r, oids)
  {
    assert rows[i := r][i] == r;
  }

  // What a call will do, decided from the index before it.

  ghost predicate SerialFree(d: Db, c: Cert) {
    forall i :: 0 <= i < |d.rows| ==> Key(d.rows[i].serial) != Key(Serial(c.serial))
  }

  /** No row of the name index has the subject; without that index every subject is free. */
  ghost predicate NameFree(d: Db, c: Cert) {
    d.unique ==> forall i :: 0 <= i < |d.rows| && i in d.named ==> d.rows[i].name != NewRow(c).name
  }

  /** Neither the serial nor the subject of the certificate is taken. */
  ghost predicate Adds(d: Db, c: Cert) {
    SerialFree(d, c) && NameFree(d, c)
  }

  /** A row that this revocation marks: that of the certificate, not revoked, with an
      argument that its reason allows. */
  predicate Marks(r: Row, c: Cert, t: RevType, arg: string, oids: OidTable) {
    r.name == NewRow(c).name && !IsRevoked(r) && !t.RevValid? && ReasonAndOther(t, arg, oids).Some?
  }

  /** The certificate's row, on file or about to be added, is marked. */
  ghost predicate Revokes(d: Db, c: Cert, t: RevType, arg: string, oids: OidTable) {
    match FindSerial(d.rows, Serial(c.serial))
    case Some(i) => Marks(d.rows[i], c, t, arg, oids)
    case None => NameFree(d, c) && Marks(NewRow(c), c, t, arg, oids)
  }

  /** The certificate's row, if it is on file, has a type to write over. */
  predicate HasType(d: Db, c: Cert) {
    match FindSerial(d.rows, Serial(c.serial))
    case Some(i) => d.rows[i].typ != ""
    case None => true
  }

  lemma AddsExact(d: Db, c: Cert)
    ensures SerialFree(d, c) <==> FindSerial(d.rows, Serial(c.serial)).None?
    ensures NameFree(d, c) <==> !d.unique || FindName(d, NewRow(c).name).None?
    ensures Adds(d, c) <==> Insert(d, NewRow(c)).Some?
  {
  }

  /** A certificate is issued exactly when nothing of it is taken and it gets signed. */
  lemma IssueSucceeds(d: Db, c: Cert, a: Answer)
    ensures Issue(d, c, a).1 == 1 <==> Adds(d, c) && a.Signed?
  {
    AddsExact(d, c);
  }

  /** `do_revoke` succeeds exactly when it marks the certificate's row, or only has to add it. */
  lemma RevokeSucceeds(d: Db, c: Cert, t: RevType, arg: string, now: Date, oids: OidTable)
    ensures Revoke(d, c, t, arg, now, oids).1 <==> Revokes(d, c, t, arg, oids) || (t.RevValid? && Adds(d, c))
  {
    AddsExact(d, c);
  }

  /** A row to be added has an expiry that can be read; a row to be marked has a type, and its
      revocation falls in the years 1950 to 2049. */
  ghost predicate Readable(d: Db, c: Cert, t: RevType, arg: string, now: Date, oids: OidTable) {
    && (Adds(d, c) ==> ParseTime(c.notAfter).Some?)
    && (Revokes(d, c, t, arg, oids) ==> HasType(d, c) && UtcYear(now.year))
  }

  /** A call of `do_revoke` leaves an index the loader accepts exactly under that condition. */
  lemma RevokeExact(d: Db, c: Cert, t: RevType, arg: string, now: Date, oids: OidTable)
    requires Good(d, oids)
    ensures Good(Revoke(d, c, t, arg, now, oids).0, oids) <==> Readable(d, c, t, arg, now, oids)
  {
    RevokeCoherent(d, c, t, arg, now, oids);
    RevokeRowsOk(d, c, t, arg, now, oids);
  }

  lemma RevokeRowsOk(d: Db, c: Cert, t: RevType, arg: string, now: Date, oids: OidTable)
    requires Good(d, oids)
    ensures RowsOk(Revoke(d, c, t, arg, now, oids).0.rows, oids) <==> Readable(d, c, t, arg, now, oids)
  {
    AddsExact(d, c);
    if SerialFree(d, c) {
      if NameFree(d, c) { RevokeAddedRowsOk(d, Insert(d, NewRow(c)).value, c, t, arg, now, oids); }
    } else {
      RevokeAtRowsOk(d, FindSerial(d.rows, Serial(c.serial)).value, c, t, arg, now, oids);
    }
  }

  lemma RevokeAddedRowsOk(d: Db, e: Db, c: Cert, t: RevType, arg: string, now: Date, oids: OidTable)
    requires Good(d, oids) && e.rows == d.rows + [NewRow(c)]
    ensures RowsOk(e.rows, oids) <==> ParseTime(c.notAfter).Some?
    ensures var (f, ok) := RevokeAt(e, |d.rows|, c, t, arg, now, oids);
      RowsOk(f.rows, oids) <==> ParseTime(c.notAfter).Some? && (ok ==> UtcYear(now.year))
  {
    NewRowOk(c, oids);
    AppendRowsOk(d.rows, NewRow(c), oids);
    assert e.rows[|d.rows|] == NewRow(c);
    RevokeAtRowsOk(e, |d.rows|, c, t, arg, now, oids);
  }

  /** The other rows are acceptable; what becomes of row `i` decides. */
  lemma RevokeAtRowsOk(d: Db, i: nat, c: Cert, t: RevType, arg: string, now: Date, oids: OidTable)
    requires i < |d.rows| && SerialSyntax(d.rows[i].serial)
    requires forall j :: 0 <= j < |d.rows| && j != i ==> RowOk(d.rows[j], oids)
    requires RowOk(d.rows[i], oids) <==> ParseTime(d.rows[i].exp).Some?
    ensures var (e, ok) := RevokeAt(d, i, c, t, arg, now, oids);
      RowsOk(e.rows, oids) <==> ParseTime(d.rows[i].exp).Some? && (ok ==> d.rows[i].typ != "" && UtcYear(now.year))
  {
    var (e, ok) := RevokeAt(d, i, c, t, arg, now, oids);
    if ok {
      MarkExact(d.rows[i], t, arg, now, oids);
      ReplaceRowsOk(d.rows, i, Mark(d.rows[i], RevocationText(t, arg, now, oids).value), oids);
    }
  }

  /** Issuing goes through the insertion check, and the loader accepts the outcome
      exactly when the new certificate's expiry can be read. */
  lemma IssueExact(d: Db, c: Cert, a: Answer, oids: OidTable)
    requires Good(d, oids)
    ensures var (e, ok) := Issue(d, c, a);
      && (if Adds(d, c) && a.Signed? then ok == 1 && Insert(d, NewRow(c)) == Some(e) else ok != 1 && e == d)
      && (Good(e, oids) <==> (Adds(d, c) && a.Signed? ==> ParseTime(c.notAfter).Some?))
  {
    IssueSucceeds(d, c, a);
    if Issue(d, c, a).1 == 1 {
      NewRowOk(c, oids);
      InsertCoherent(d, NewRow(c));
      AppendRowsOk(d.rows, NewRow(c), oids);
    }
  }

  // ----- expiry -----

  lemma {:induction false} ExpireShape(rows: seq<Row>, now: Date)
    ensures var e := ExpireRows(rows, now).0;
      forall i :: 0 <= i < |rows| ==> e[i] == rows[i] || (IsValid(rows[i]) && e[i] == rows[i].(typ := "E"))
  {
    if rows != [] && ExpireRow(rows[0], now).Some? {
      ExpireShape(rows[1..], now);
      var e := ExpireRows(rows, now).0;
      assert e[1..] == ExpireRows(rows[1..], now).0;
      assert e[0] == rows[0] || (IsValid(rows[0]) && e[0] == rows[0].(typ := "E"));
      assert forall i :: 1 <= i < |rows| ==> e[i] == e[1..][i - 1] && rows[i] == rows[1..][i - 1];
    }
  }

  lemma ExpireKeepsGood(d: Db, now: Date, oids: OidTable)
    requires Good(d, oids)
    ensures Good(d.(rows := ExpireRows(d.rows, now).0), oids)
  {
    var e := d.(rows := ExpireRows(d.rows, now).0);
    ExpireShape(d.rows, now);
    assert ValidAt(e.rows) <= ValidAt(d.rows);
  }

  /** An expiry is due exactly when the date it means is not after the current time. */
  lemma DueExact(exp: Stamp, now: Date)
    ensures Due(exp, now) <==> forall u :: Denotes(exp, u) ==> NotAfter(u, now)
  {
    match Denoted(exp)
    case None =>
      forall u: Tm ensures !Denotes(exp, u) { DenotedExact(exp, u); }
    case Some(d) =>
      DenotedExact(exp, d);
      CompareExact(d, now);
      forall u | Denotes(exp, u) ensures u == d { DenotedExact(exp, u); }
  }

  lemma DueLater(exp: Stamp, t1: Date, t2: Date)
    requires NotAfter(t1, t2) && Due(exp, t1)
    ensures Due(exp, t2)
  {
    DueExact(exp, t1);
    DueExact(exp, t2);
  }

  /** Expiring twice is expiring once at the later time, and the counts add up. */
  lemma {:induction false} ExpireTwice(rows: seq<Row>, t1: Date, t2: Date)
    requires NotAfter(t1, t2)
    ensures var (once, n) := ExpireRows(rows, t2);
      var (first, n1) := ExpireRows(rows, t1);
      var (second, n2) := ExpireRows(first, t2);
      && second == once
      && (n == -1 <==> n1 == -1) && (n == -1 <==> n2 == -1)
      && (n >= 0 ==> n == n1 + n2)
  {
    if rows != [] && ExpireRow(rows[0], t1).Some? {
      ExpireTwice(rows[1..], t1, t2);
      ExpireRowTwice(rows[0], t1, t2);
      var first := ExpireRows(rows, t1).0;
      assert first[1..] == ExpireRows(rows[1..], t1).0;
    }
  }

  lemma ExpireRowTwice(r: Row, t1: Date, t2: Date)
    requires NotAfter(t1, t2) && ExpireRow(r, t1).Some?
    ensures ExpireRow(r, t2).Some?
    ensures var (a, n1) := ExpireRow(r, t1).value;
      var (b, n) := ExpireRow(r, t2).value;
      ExpireRow(a, t2).Some? && ExpireRow(a, t2).value.0 == b && n == n1 + ExpireRow(a, t2).value.1
  {
    if IsValid(r) && Due(ParseTime(r.exp).value, t1) { DueLater(ParseTime(r.exp).value, t1, t2); }
  }

  // ----- the life of a row -----

  /** What may happen to a row: nothing, expiry of a valid row, or revocation of one
      that is not revoked. Serial, subject, file and expiry never change. */
  predicate Ages(a: Row, b: Row) {
    && b.serial == a.serial && b.name == a.name && b.file == a.file && b.exp == a.exp
    && (b == a || (IsValid(a) && b.typ == "E" && b.rev == a.rev) || (!IsRevoked(a) && b.typ == "R"))
  }

  /** Rows are only appended, and those already there only age. */
  ghost predicate Extends(a: seq<Row>, b: seq<Row>) {
    |a| <= |b| && forall i :: 0 <= i < |a| ==> Ages(a[i], b[i])
  }

  lemma ExtendsTransitive(a: seq<Row>, b: seq<Row>, c: seq<Row>)
    requires Extends(a, b) && Extends(b, c)
    ensures Extends(a, c)
  {
    forall i | 0 <= i < |a| ensures Ages(a[i], c[i]) {
      assert Ages(a[i], b[i]) && Ages(b[i], c[i]);
    }
  }

  lemma RevokeAtExtends(d: Db, i: nat, c: Cert, t: RevType, arg: string, now: Date, oids: OidTable)
    requires i < |d.rows|
    ensures var (e, ok) := RevokeAt(d, i, c, t, arg, now, oids);
      (ok ==> d.rows[i].typ != "") ==> Extends(d.rows, e.rows)
  {
  }

  lemma RevokeExtends(d: Db, c: Cert, t: RevType, arg: string, now: Date, oids: OidTable)
    ensures (Revokes(d, c, t, arg, oids) ==> HasType(d, c)) ==> Extends(d.rows, Revoke(d, c, t, arg, now, oids).0.rows)
    ensures Revoke(d, c, t, arg, now, oids).0.unique == d.unique
  {
    AddsExact(d, c);
    match FindSerial(d.rows, Serial(c.serial))
    case Some(i) => RevokeAtExtends(d, i, c, t, arg, now, oids);
    case None =>
      if Insert(d, NewRow(c)).Some? && !t.RevValid? {
        var e := Insert(d, NewRow(c)).value;
        RevokeAtExtends(e, |d.rows|, c, t, arg, now, oids);
        ExtendsTransitive(d.rows, e.rows, RevokeAt(e, |d.rows|, c, t, arg, now, oids).0.rows);
      }
  }

  // ----- what the file can hold -----

  /** Characters that need no escape and do not end a line. */
  ghost predicate PlainText(s: string) {
    '\n' !in s && !EndsEscaped(s)
  }

  /** An expiry that can be read and a subject without a line break. */
  ghost predicate CleanCert(c: Cert) {
    ParseTime(c.notAfter).Some? && '\n' !in c.subject
  }

  lemma NewRowStorable(c: Cert)
    requires CleanCert(c)
    ensures Storable(FieldsOf(NewRow(c)))
  {
    var r := NewRow(c);
    ParsedTimeIsPlain(if Parse(Utc, c.notAfter).Some? then Utc else Generalized, c.notAfter);
    SerialIsPlain(c.serial);
    assert PlainText(r.exp) && PlainText(r.typ) && PlainText(r.rev) && PlainText(r.file);
  }

  lemma SerialIsPlain(n: int)
    ensures PlainText(Serial(n))
  {
    SerialHasSyntax(n);
    var s := Serial(n);
    forall i | 0 <= i < |s| ensures s[i] != '\n' && s[i] != '\\' {
      if s[0] == '-' && i > 0 { assert IsHexDigit(s[1..][i - 1]); }
    }
  }

  /** A time a UTCTime can express and, for a hold, an instruction the file can carry. */
  ghost predicate CleanRevocation(t: RevType, arg: string, now: Date) {
    UtcYear(now.year) && (t.RevHold? ==> PlainText(arg))
  }

  lemma RevocationTextIsPlain(t: RevType, arg: string, now: Date, oids: OidTable)
    requires RevocationText(t, arg, now, oids).Some?
    ensures PlainText(RevocationText(t, arg, now, oids).value) <==> (t.RevHold? ==> PlainText(arg))
  {
    StoredPartsArePlain(t, arg, now, oids);
    if t.RevKeyCompromise? || t.RevCaCompromise? { ParsedTimeIsPlain(Generalized, arg); }
    var (reason, other) := ReasonAndOther(t, arg, oids).value;
    JoinedIsPlain(Format(now), reason, other);
  }

  lemma JoinedIsPlain(time: string, reason: Option<string>, other: Option<string>)
    requires TimeText(time) && (reason.Some? ==> Letters(reason.value))
    ensures PlainText(Joined(time, reason, other)) <==> (other.Some? ==> PlainText(other.value))
  {
    assert PlainText(time);
    assert reason.Some? ==> PlainText("," + reason.value);
    if other.Some? {
      assert PlainText("," + other.value) <==> PlainText(other.value);
    }
  }

  lemma MarkStorable(r: Row, text: string)
    requires Storable(FieldsOf(r))
    ensures Storable(FieldsOf(Mark(r, text))) <==> PlainText(text)
  {
    var f, g := FieldsOf(r), FieldsOf(Mark(r, text));
    assert forall i :: 3 <= i < 6 ==> g[i] == f[i];
    assert g[1] == f[1] || g[1] == "";
    assert PlainText("R") && g[2] == text;
  }

  // ----- runs -----

  /** The index file and the process that has it loaded. */
  datatype State = State(disk: string, mem: Db)

  datatype Step =
    | IssueStep(cert: Cert, answer: Answer)
    | RevokeStep(cert: Cert, revType: RevType, arg: string, now: Date)
    | ExpireStep(instant: Date)
    | Commit
    | Restart

  /** One step. An empty table cannot be saved, and a refused file leaves the program as it is. */
  ghost function Apply(s: State, step: Step, oids: OidTable): State {
    match step
    case IssueStep(c, a) => s.(mem := Issue(s.mem, c, a).0)
    case RevokeStep(c, t, arg, now) => s.(mem := Revoke(s.mem, c, t, arg, now, oids).0)
    case ExpireStep(now) => s.(mem := s.mem.(rows := ExpireRows(s.mem.rows, now).0))
    case Commit => if s.mem.rows == [] then s else s.(disk := FileText(s.mem.rows))
    case Restart =>
      match Load(s.disk, s.mem.unique, oids)
      case None => s
      case Some(d) => s.(mem := d)
  }

  ghost function Run(s: State, steps: seq<Step>, oids: OidTable): State
    decreases |steps|
  {
    if steps == [] then s else Apply(Run(s, steps[..|steps| - 1], oids), steps[|steps| - 1], oids)
  }

  /** What the file format and the loader can carry, decided from the index before the step:
      only a row that is added and a revocation that is stored ask for anything. */
  ghost predicate Clean(d: Db, step: Step, oids: OidTable) {
    match step
    case IssueStep(c, a) => Adds(d, c) && a.Signed? ==> CleanCert(c)
    case RevokeStep(c, t, arg, now) =>
      && (Adds(d, c) ==> CleanCert(c))
      && (Revokes(d, c, t, arg, oids) ==> HasType(d, c) && CleanRevocation(t, arg, now))
    case _ => true
  }

  /** The index in memory is good, and the file can hold its rows. */
  ghost predicate Sound(d: Db, oids: OidTable) {
    match d
    case Db(rows, _, _) => Good(d, oids) && StorableRows(rows)
  }

  /** The rows a restart would load; none when it would refuse the file. */
  ghost function OnFile(s: State, oids: OidTable): seq<Row> {
    var d := Load(s.disk, s.mem.unique, oids);
    if d.Some? then d.value.rows else []
  }

  /** The file loads, the index in memory is sound, and its rows extend those on file. */
  ghost predicate Inv(s: State, oids: OidTable) {
    match Load(s.disk, s.mem.unique, oids)
    case None => false
    case Some(d) => Sound(s.mem, oids) && Extends(d.rows, s.mem.rows)
  }

  lemma TableIsStorable(t: seq<Fields>)
    requires Table(t, 6) && forall i :: 0 <= i < |t| ==> Storable(t[i])
    ensures StorableRows(RowsOf(t))
  {
    forall i | 0 <= i < |t| ensures Storable(FieldsOf(RowsOf(t)[i])) {
      assert FieldsOf(RowOf(t[i])) == t[i];
    }
  }

  lemma LoadableIsGood(rows: seq<Row>, unique: bool, oids: OidTable)
    requires Loadable(rows, unique, oids)
    ensures Good(Db(rows, if unique then ValidAt(rows) else {}, unique), oids)
  {
  }

  /** Whatever the loader accepts is sound. */
  lemma LoadedIsSound(text: string, unique: bool, oids: OidTable, d: Db)
    requires Load(text, unique, oids) == Some(d)
    ensures Sound(d, oids)
  {
    ReadGivesStorable(text, 6);
    TableIsStorable(ReadAll(text, 6).value);
    LoadableIsGood(d.rows, unique, oids);
  }

  /** Every file that the loader accepts is a place to start from. */
  lemma LoadedIsStart(text: string, unique: bool, oids: OidTable, d: Db)
    requires Load(text, unique, oids) == Some(d)
    ensures Inv(State(text, d), oids)
  {
    LoadedIsSound(text, unique, oids, d);
    assert Extends(d.rows, d.rows);
  }

  lemma AppendExact(d: Db, c: Cert, e: Db, oids: OidTable)
    requires Sound(d, oids) && Insert(d, NewRow(c)) == Some(e)
    ensures Sound(e, oids) <==> CleanCert(c)
    ensures Extends(d.rows, e.rows)
  {
    var r := NewRow(c);
    assert e.rows == d.rows + [r];
    if CleanCert(c) {
      NewRowOk(c, oids);
      NewRowStorable(c);
      InsertCoherent(d, r);
      AppendRowsOk(d.rows, r, oids);
      AppendStorable(d.rows, r);
    } else {
      UncleanRow(e, |d.rows|, c, oids);
    }
  }

  /** A row with the expiry and name of an unreadable certificate spoils the index. */
  lemma UncleanRow(d: Db, i: nat, c: Cert, oids: OidTable)
    requires !CleanCert(c) && i < |d.rows| && d.rows[i].exp == c.notAfter && d.rows[i].name == NewRow(c).name
    ensures !Sound(d, oids)
  {
    assert FieldsOf(d.rows[i])[5] == d.rows[i].name;
  }

  lemma AppendStorable(rows: seq<Row>, r: Row)
    requires StorableRows(rows) && Storable(FieldsOf(r))
    ensures StorableRows(rows + [r])
  {
  }

  lemma RevokeAtSound(d: Db, i: nat, c: Cert, t: RevType, arg: string, now: Date, oids: OidTable)
    requires Sound(d, oids) && i < |d.rows|
    ensures var (e, ok) := RevokeAt(d, i, c, t, arg, now, oids);
      Sound(e, oids) <==> (ok ==> d.rows[i].typ != "" && CleanRevocation(t, arg, now))
  {
    RevokeAtCoherent(d, i, c, t, arg, now, oids);
    if RevokeAt(d, i, c, t, arg, now, oids).1 {
      var text := RevocationText(t, arg, now, oids).value;
      MarkExact(d.rows[i], t, arg, now, oids);
      ReplaceRowsOk(d.rows, i, Mark(d.rows[i], text), oids);
      RevocationTextIsPlain(t, arg, now, oids);
      MarkStorable(d.rows[i], text);
      ReplaceStorable(d.rows, i, Mark(d.rows[i], text));
    }
  }

  lemma ReplaceStorable(rows: seq<Row>, i: nat, r: Row)
    requires StorableRows(rows) && i < |rows|
    ensures StorableRows(rows[i := r]) <==> Storable(FieldsOf(r))
  {
    assert rows[i := r][i] == r;
  }

  lemma RevokeSound(d: Db, c: Cert, t: RevType, arg: string, now: Date, oids: OidTable)
    requires Sound(d, oids)
    ensures Sound(Revoke(d, c, t, arg, now, oids).0, oids) <==> Clean(d, RevokeStep(c, t, arg, now), oids)
  {
    AddsExact(d, c);
    match FindSerial(d.rows, Serial(c.serial))
    case Some(i) => RevokeAtSound(d, i, c, t, arg, now, oids);
    case None =>
      if Adds(d, c) {
        var e := Insert(d, NewRow(c)).value;
        AppendExact(d, c, e, oids);
        if t.RevValid? {
        } else if CleanCert(c) {
          RevokeAtSound(e, |d.rows|, c, t, arg, now, oids);
        } else {
          UncleanRow(RevokeAt(e, |d.rows|, c, t, arg, now, oids).0, |d.rows|, c, oids);
        }
      }
  }

  lemma ExpireSound(d: Db, now: Date, oids: OidTable)
    requires Sound(d, oids)
    ensures var e := d.(rows := ExpireRows(d.rows, now).0); Sound(e, oids) && Extends(d.rows, e.rows)
  {
    var e := ExpireRows(d.rows, now).0;
    ExpireKeepsGood(d, now, oids);
    ExpireShape(d.rows, now);
    forall i | 0 <= i < |e| ensures Storable(FieldsOf(e[i])) && Ages(d.rows[i], e[i]) {
      assert Storable(FieldsOf(d.rows[i]));
      if e[i] != d.rows[i] { ExpiredStorable(d.rows[i]); }
    }
  }

  lemma ExpiredStorable(r: Row)
    requires Storable(FieldsOf(r))
    ensures Storable(FieldsOf(r.(typ := "E")))
  {
    var f, g := FieldsOf(r), FieldsOf(r.(typ := "E"));
    assert forall i :: 1 <= i < 6 ==> g[i] == f[i];
    assert PlainText("E");
  }

  /** The invariant holds afterwards, and the rows on file have only aged or grown. */
  ghost predicate Follows(s: State, s': State, oids: OidTable) {
    match s'
    case State(_, mem) =>
      Inv(s', oids) && mem.unique == s.mem.unique && Extends(OnFile(s, oids), OnFile(s', oids))
  }

  /** The step keeps the invariant exactly when it is clean, and then the rows on file only age or grow. */
  ghost predicate Exact(s: State, step: Step, oids: OidTable) {
    var s' := Apply(s, step, oids);
    (Clean(s.mem, step, oids) ==> Follows(s, s', oids)) && (Inv(s', oids) ==> Clean(s.mem, step, oids))
  }

  lemma FollowsTransitive(a: State, b: State, c: State, oids: OidTable)
    requires Follows(a, b, oids) && Follows(b, c, oids)
    ensures Follows(a, c, oids)
  {
    ExtendsTransitive(OnFile(a, oids), OnFile(b, oids), OnFile(c, oids));
  }

  /** A step in memory leaves the file alone. */
  lemma MemoryStep(s: State, e: Db, oids: OidTable)
    requires Inv(s, oids) && e.unique == s.mem.unique
    ensures Sound(e, oids) && Extends(s.mem.rows, e.rows) ==> Follows(s, s.(mem := e), oids)
    ensures Inv(s.(mem := e), oids) ==> Sound(e, oids)
  {
    if Extends(s.mem.rows, e.rows) { ExtendsTransitive(OnFile(s, oids), s.mem.rows, e.rows); }
  }

  lemma IssueStepExact(s: State, c: Cert, a: Answer, oids: OidTable)
    requires Inv(s, oids)
    ensures Exact(s, IssueStep(c, a), oids)
  {
    IssueExact(s.mem, c, a, oids);
    if Issue(s.mem, c, a).1 == 1 { AppendExact(s.mem, c, Issue(s.mem, c, a).0, oids); }
    MemoryStep(s, Issue(s.mem, c, a).0, oids);
  }

  lemma RevokeStepExact(s: State, c: Cert, t: RevType, arg: string, now: Date, oids: OidTable)
    requires Inv(s, oids)
    ensures Exact(s, RevokeStep(c, t, arg, now), oids)
  {
    RevokeSound(s.mem, c, t, arg, now, oids);
    RevokeExtends(s.mem, c, t, arg, now, oids);
    MemoryStep(s, Revoke(s.mem, c, t, arg, now, oids).0, oids);
  }

  lemma ExpireStepFollows(s: State, now: Date, oids: OidTable)
    requires Inv(s, oids)
    ensures Follows(s, Apply(s, ExpireStep(now), oids), oids)
  {
    ExpireSound(s.mem, now, oids);
    MemoryStep(s, s.mem.(rows := ExpireRows(s.mem.rows, now).0), oids);
  }

  /** A commit makes the file hold the rows in memory. */
  lemma CommitStepFollows(s: State, oids: OidTable)
    requires Inv(s, oids)
    ensures var s' := Apply(s, Commit, oids);
      Follows(s, s', oids) && (s.mem.rows != [] ==> OnFile(s', oids) == s.mem.rows)
  {
    if s.mem.rows != [] {
      GoodIsLoadable(s.mem, oids);
      LoadOfFileText(s.mem.rows, s.mem.unique, oids);
      var d := Load(FileText(s.mem.rows), s.mem.unique, oids).value;
      assert d.rows == s.mem.rows;
      assert IndexOk(d);
    }
  }

  /** A restart always succeeds and finds the rows on file. */
  lemma RestartStepFollows(s: State, oids: OidTable)
    requires Inv(s, oids)
    ensures var s' := Apply(s, Restart, oids); Follows(s, s', oids) && s'.mem.rows == OnFile(s, oids)
  {
    RestartWith(s, Load(s.disk, s.mem.unique, oids).value, oids);
  }

  lemma RestartWith(s: State, d: Db, oids: OidTable)
    requires Inv(s, oids) && Load(s.disk, s.mem.unique, oids) == Some(d)
    ensures Follows(s, s.(mem := d), oids)
  {
    LoadedIsSound(s.disk, s.mem.unique, oids, d);
    assert Extends(d.rows, d.rows);
  }

  /** A step keeps the invariant if and only if what it stores is clean. */
  lemma StepExact(s: State, step: Step, oids: OidTable)
    requires Inv(s, oids)
    ensures Inv(Apply(s, step, oids), oids) <==> Clean(s.mem, step, oids)
    ensures Clean(s.mem, step, oids) ==> Follows(s, Apply(s, step, oids), oids)
  {
    match step
    case IssueStep(c, a) => IssueStepExact(s, c, a, oids);
    case RevokeStep(c, t, arg, now) => RevokeStepExact(s, c, t, arg, now, oids);
    case ExpireStep(now) => ExpireStepFollows(s, now, oids);
    case Commit => CommitStepFollows(s, oids);
    case Restart => RestartStepFollows(s, oids);
  }

  /** Every step of the run is clean for the index it meets. */
  ghost predicate CleanRun(s: State, steps: seq<Step>, oids: OidTable)
    decreases |steps|
  {
    steps == [] ||
    var n := |steps| - 1;
    CleanRun(s, steps[..n], oids) && Clean(Run(s, steps[..n], oids).mem, steps[n], oids)
  }

  /** Over every run of issue, add, revoke, expire, commit and restart steps the index
      file stays acceptable to the loader, serials and valid names stay distinct, and a
      row on file keeps its serial, subject and expiry; once revoked it never changes. */
  lemma {:induction false} RunsStayLoadable(s: State, steps: seq<Step>, oids: OidTable)
    requires Inv(s, oids) && CleanRun(s, steps, oids)
    ensures Follows(s, Run(s, steps, oids), oids)
    decreases |steps|
  {
    if steps != [] {
      var before := steps[..|steps| - 1];
      RunsStayLoadable(s, before, oids);
      var m := Run(s, before, oids);
      StepExact(m, steps[|steps| - 1], oids);
      FollowsTransitive(s, m, Run(s, steps, oids), oids);
    }
  }

  /** The invariant holds after every initial part of the run. */
  ghost predicate HoldsThroughout(s: State, steps: seq<Step>, oids: OidTable)
    decreases |steps|
  {
    Inv(Run(s, steps, oids), oids) && (steps == [] || HoldsThroughout(s, steps[..|steps| - 1], oids))
  }

  /** It does so if and only if every step was clean for the index it met. */
  lemma {:induction false} RunsExact(s: State, steps: seq<Step>, oids: OidTable)
    requires Inv(s, oids)
    ensures HoldsThroughout(s, steps, oids) <==> CleanRun(s, steps, oids)
    decreases |steps|
  {
    if steps != [] {
      var n := |steps| - 1;
      RunsExact(s, steps[..n], oids);
      if HoldsThroughout(s, steps[..n], oids) { StepExact(Run(s, steps[..n], oids), steps[n], oids); }
    }
  }

  /** A run without a restart: one process, which has loaded its index once. */
  ghost predicate OneProcess(steps: seq<Step>) {
    forall i :: 0 <= i < |steps| ==> !steps[i].Restart?
  }

  lemma RevokeKeepsRevoked(d: Db, c: Cert, t: RevType, arg: string, now: Date, oids: OidTable, i: nat)
    requires i < |d.rows| && IsRevoked(d.rows[i])
    ensures var after := Revoke(d, c, t, arg, now, oids).0.rows; i < |after| && after[i] == d.rows[i]
  {
    match FindSerial(d.rows, Serial(c.serial))
    case Some(k) => assert RevokeAt(d, k, c, t, arg, now, oids).0.rows[i] == d.rows[i];
    case None =>
      if Insert(d, NewRow(c)).Some? {
        var e := Insert(d, NewRow(c)).value;
        assert e.rows[i] == d.rows[i];
        assert RevokeAt(e, |d.rows|, c, t, arg, now, oids).0.rows[i] == d.rows[i];
      }
  }

  lemma StepKeepsRevoked(s: State, step: Step, oids: OidTable, i: nat)
    requires !step.Restart? && i < |s.mem.rows| && IsRevoked(s.mem.rows[i])
    ensures var after := Apply(s, step, oids).mem.rows; i < |after| && after[i] == s.mem.rows[i]
  {
    match step
    case RevokeStep(c, t, arg, now) => RevokeKeepsRevoked(s.mem, c, t, arg, now, oids, i);
    case ExpireStep(now) => ExpireShape(s.mem.rows, now);
    case _ =>
  }

  /** In memory a revoked row never changes again, whatever one process does and however the
      index came about. */
  lemma {:induction false} RevokedInMemory(s: State, steps: seq<Step>, oids: OidTable, i: nat)
    requires OneProcess(steps) && i < |s.mem.rows| && IsRevoked(s.mem.rows[i])
    ensures var after := Run(s, steps, oids).mem.rows; i < |after| && after[i] == s.mem.rows[i]
    decreases |steps|
  {
    if steps != [] {
      var n := |steps| - 1;
      RevokedInMemory(s, steps[..n], oids, i);
      StepKeepsRevoked(Run(s, steps[..n], oids), steps[n], oids, i);
    }
  }

  /** A revoked row on file is the same row after any clean run, restarts included. */
  lemma RevokedForever(s: State, steps: seq<Step>, oids: OidTable, i: nat)
    requires Inv(s, oids) && CleanRun(s, steps, oids)
    requires i < |OnFile(s, oids)| && IsRevoked(OnFile(s, oids)[i])
    ensures var after := OnFile(Run(s, steps, oids), oids); i < |after| && after[i] == OnFile(s, oids)[i]
  {
    RunsStayLoadable(s, steps, oids);
    assert Ages(OnFile(s, oids)[i], OnFile(Run(s, steps, oids), oids)[i]);
  }

  /** An index with a single, freshly issued certificate. */
  lemma OneRowIsGood(c: Cert, oids: OidTable)
    requires ParseTime(c.notAfter).Some?
    ensures Good(Db([NewRow(c)], {0}, true), oids)
  {
    var d := Db([NewRow(c)], {0}, true);
    NewRowOk(c, oids);
    assert ValidAt(d.rows) <= d.named;
  }

  /** A revocation outside the years 1950 to 2049, in any good index and for any reason,
      succeeds, and the loader refuses the index from then on. */
  lemma RevokedTooLate(d: Db, c: Cert, t: RevType, arg: string, now: Date, oids: OidTable)
    requires Good(d, oids) && Revokes(d, c, t, arg, oids) && !UtcYear(now.year)
    ensures var (e, ok) := Revoke(d, c, t, arg, now, oids); ok && !Loadable(e.rows, d.unique, oids)
  {
    RevokeSucceeds(d, c, t, arg, now, oids);
    RevokeRowsOk(d, c, t, arg, now, oids);
  }

  lemma RevokedAlone(c: Cert, now: Date, oids: OidTable)
    requires ParseTime(c.notAfter).Some? && !UtcYear(now.year)
    ensures var (e, ok) := Revoke(Db([NewRow(c)], {0}, true), c, RevNone, "", now, oids);
      ok && !Loadable(e.rows, true, oids)
  {
    var d := Db([NewRow(c)], {0}, true);
    OneRowIsGood(c, oids);
    assert FindSerial(d.rows, Serial(c.serial)) == Some(0);
    RevokedTooLate(d, c, RevNone, "", now, oids);
  }

  /** A concrete case: revoked on the first day of 2050. */
  lemma RevokedIn2050(oids: OidTable)
    ensures var c := Cert(1, "/CN=a", Format(Tm(2049, 12, 31, 23, 59, 59)));
      var (e, ok) := Revoke(Db([NewRow(c)], {0}, true), c, RevNone, "", Tm(2050, 1, 1, 0, 0, 0), oids);
      ok && !Loadable(e.rows, true, oids)
  {
    PrintedTimeReadsBack(Utc, Tm(2049, 12, 31, 23, 59, 59));
    RevokedAlone(Cert(1, "/CN=a", Format(Tm(2049, 12, 31, 23, 59, 59))), Tm(2050, 1, 1, 0, 0, 0), oids);
  }

  /** Revoking a row without a type, in any good index and for any reason, succeeds, and the loader
      refuses the index from then on: the terminator of the new type has cut the expiry. */
  lemma RevokedWithoutType(d: Db, c: Cert, t: RevType, arg: string, now: Date, oids: OidTable)
    requires Good(d, oids) && Revokes(d, c, t, arg, oids) && !HasType(d, c)
    ensures var (e, ok) := Revoke(d, c, t, arg, now, oids); ok && !Loadable(e.rows, d.unique, oids)
  {
    RevokeSucceeds(d, c, t, arg, now, oids);
    RevokeRowsOk(d, c, t, arg, now, oids);
  }

  lemma UntypedRow(exp: string, now: Date, oids: OidTable)
    requires ParseTime(exp).Some?
    ensures var d := Db([Row("", exp, "", Serial(1), "unknown", "/CN=a")], {}, true);
      var (e, ok) := Revoke(d, Cert(1, "/CN=a", exp), RevNone, "", now, oids);
      Loadable(d.rows, true, oids) && ok && !Loadable(e.rows, true, oids)
  {
    var d := Db([Row("", exp, "", Serial(1), "unknown", "/CN=a")], {}, true);
    SerialHasSyntax(1);
    assert ValidAt(d.rows) == {};
    assert FindSerial(d.rows, Serial(1)) == Some(0);
    RevokedWithoutType(d, Cert(1, "/CN=a", exp), RevNone, "", now, oids);
  }

  /** A concrete case: a row for serial 1 with an empty type field, revoked in 2025. */
  lemma UntypedRowIsSpoiled(oids: OidTable)
    ensures var exp := Format(Tm(2049, 12, 31, 23, 59, 59));
      var d := Db([Row("", exp, "", Serial(1), "unknown", "/CN=a")], {}, true);
      var (e, ok) := Revoke(d, Cert(1, "/CN=a", exp), RevNone, "", Tm(2025, 1, 1, 0, 0, 0), oids);
      Loadable(d.rows, true, oids) && ok && !Loadable(e.rows, true, oids)
  {
    PrintedTimeReadsBack(Utc, Tm(2049, 12, 31, 23, 59, 59));
    UntypedRow(Format(Tm(2049, 12, 31, 23, 59, 59)), Tm(2025, 1, 1, 0, 0, 0), oids);
  }

  lemma {:induction false} ExpiresWhenDue(rows: seq<Row>, now: Date, i: nat)
    requires i < |rows| && ExpireRows(rows, now).1 >= 0
    ensures IsValid(rows[i]) ==> ParseTime(rows[i].exp).Some?
    ensures ExpireRows(rows, now).0[i] ==
      if IsValid(rows[i]) && Due(ParseTime(rows[i].exp).value, now) then rows[i].(typ := "E") else rows[i]
    decreases |rows|
  {
    var e, rest := ExpireRow(rows[0], now), ExpireRows(rows[1..], now);
    assert e.Some? && ExpireRows(rows, now).0 == [e.value.0] + rest.0;
    if i > 0 { ExpiresWhenDue(rows[1..], now, i - 1); }
  }

  /** A valid row whose expiry means no date after the current time. */
  ghost predicate Expires(r: Row, now: Date) {
    match ParseTime(r.exp)
    case None => false
    case Some(exp) => IsValid(r) && forall u :: Denotes(exp, u) ==> NotAfter(u, now)
  }

  ghost predicate SomethingExpires(rows: seq<Row>, now: Date) {
    exists i :: 0 <= i < |rows| && Expires(rows[i], now)
  }

  predicate Unreadable(r: Row) {
    IsValid(r) && ParseTime(r.exp).None?
  }

  /** Exactly those valid rows expire whose expiry means no date after the current time; nothing
      else changes. */
  lemma ExpireExact(rows: seq<Row>, now: Date, i: nat)
    requires i < |rows| && forall j :: 0 <= j < |rows| ==> !Unreadable(rows[j])
    ensures ExpireRows(rows, now).0[i] == if Expires(rows[i], now) then rows[i].(typ := "E") else rows[i]
  {
    ExpireFailsExact(rows, now);
    ExpiresWhenDue(rows, now, i);
    if IsValid(rows[i]) { DueExact(ParseTime(rows[i].exp).value, now); }
  }

  lemma ExpireRowExact(r: Row, now: Date)
    ensures ExpireRow(r, now) ==
      if Unreadable(r) then None else Some(if Expires(r, now) then (r.(typ := "E"), 1) else (r, 0))
  {
    if IsValid(r) && ParseTime(r.exp).Some? { DueExact(ParseTime(r.exp).value, now); }
  }

  /** Expiring fails exactly when the expiry of some valid row cannot be read. */
  lemma {:induction false} ExpireFailsExact(rows: seq<Row>, now: Date)
    ensures ExpireRows(rows, now).1 < 0 <==> exists i :: 0 <= i < |rows| && Unreadable(rows[i])
    decreases |rows|
  {
    if rows != [] {
      ExpireFailsExact(rows[1..], now);
      assert ExpireRow(rows[0], now).None? <==> Unreadable(rows[0]);
      TailUnreadable(rows, rows[1..]);
    }
  }

  lemma TailUnreadable(rows: seq<Row>, rest: seq<Row>)
    requires rows != [] && rest == rows[1..]
    ensures (exists i :: 0 <= i < |rows| && Unreadable(rows[i])) <==>
      Unreadable(rows[0]) || exists i :: 0 <= i < |rest| && Unreadable(rest[i])
  {
    if i :| 0 <= i < |rest| && Unreadable(rest[i]) { assert Unreadable(rows[i + 1]); }
    if i :| 0 < i < |rows| && Unreadable(rows[i]) { assert Unreadable(rest[i - 1]); }
  }

  ghost function ExpiringAt(rows: seq<Row>, now: Date): set<nat> {
    set i: nat | i < |rows| && Expires(rows[i], now)
  }

  ghost function UpByOne(a: set<nat>): set<nat> {
    set i: nat | i in a :: i + 1
  }

  lemma UpByOneExact(a: set<nat>, k: nat)
    ensures k in UpByOne(a) <==> k > 0 && k - 1 in a
  {
    if k > 0 && k - 1 in a { assert (k - 1) + 1 == k; }
  }

  lemma {:induction false} UpByOneKeepsSize(a: set<nat>)
    ensures |UpByOne(a)| == |a|
    decreases |a|
  {
    if a != {} {
      var x :| x in a;
      var b := a - {x};
      UpByOneKeepsSize(b);
      forall k: nat ensures k in UpByOne(a) <==> k in UpByOne(b) + {x + 1} {
        UpByOneExact(a, k);
        UpByOneExact(b, k);
      }
      UpByOneExact(b, x + 1);
      assert UpByOne(a) == UpByOne(b) + {x + 1};
    }
  }

  lemma ExpiringMoves(rows: seq<Row>, now: Date, k: nat)
    requires rows != []
    ensures k in UpByOne(ExpiringAt(rows[1..], now)) <==> k in ExpiringAt(rows, now) && k != 0
  {
    UpByOneExact(ExpiringAt(rows[1..], now), k);
    if 0 < k < |rows| { assert rows[1..][k - 1] == rows[k]; }
  }

  lemma ExpiringTail(rows: seq<Row>, now: Date)
    requires rows != []
    ensures |ExpiringAt(rows, now)| == |ExpiringAt(rows[1..], now)| + (if Expires(rows[0], now) then 1 else 0)
  {
    var up := UpByOne(ExpiringAt(rows[1..], now));
    forall k: nat ensures k in up <==> k in ExpiringAt(rows, now) && k != 0 { ExpiringMoves(rows, now, k); }
    OneMore(ExpiringAt(rows, now), up);
    UpByOneKeepsSize(ExpiringAt(rows[1..], now));
  }

  lemma OneMore(all: set<nat>, up: set<nat>)
    requires forall k: nat :: k in up <==> k in all && k != 0
    ensures |all| == |up| + (if 0 in all then 1 else 0)
  {
    if 0 in all { assert all == up + {0}; } else { assert all == up; }
  }

  /** The count is the number of rows that expire. */
  lemma {:induction false} ExpireCounts(rows: seq<Row>, now: Date)
    requires ExpireRows(rows, now).1 >= 0
    ensures ExpireRows(rows, now).1 == |ExpiringAt(rows, now)|
    decreases |rows|
  {
    if rows != [] {
      ExpireCounts(rows[1..], now);
      ExpireRowExact(rows[0], now);
      ExpiringTail(rows, now);
    }
  }

  // ----- the name index -----

  /** With unique subjects, a subject in use by a valid row is refused, whatever the serial. */
  lemma DuplicateSubjectRefused(d: Db, c: Cert, a: Answer, i: nat)
    requires IndexOk(d) && d.unique && i < |d.rows| && IsValid(d.rows[i]) && d.rows[i].name == NewRow(c).name
    ensures Issue(d, c, a) == (d, -1)
  {
    assert i in ValidAt(d.rows);
    assert FindName(d, NewRow(c).name).Some?;
  }

  /** Right after loading, a name is taken exactly when a valid row has it. */
  lemma NameLookup(text: string, unique: bool, oids: OidTable, d: Db, name: string)
    requires Load(text, unique, oids) == Some(d)
    ensures FindName(d, name).Some? <==>
      unique && exists i :: 0 <= i < |d.rows| && IsValid(d.rows[i]) && d.rows[i].name == name
  {
    if FindName(d, name).None? && unique {
      forall i | 0 <= i < |d.rows| && IsValid(d.rows[i]) ensures d.rows[i].name != name {
        assert i in d.named;
      }
    }
  }

  /** Positions keep their serial and their name. */
  ghost predicate SameIdentity(a: seq<Row>, b: seq<Row>) {
    |a| <= |b| && forall i :: 0 <= i < |a| ==> b[i].serial == a[i].serial && b[i].name == a[i].name
  }

  lemma RevokeAtIdentity(d: Db, i: nat, c: Cert, t: RevType, arg: string, now: Date, oids: OidTable)
    requires i < |d.rows|
    ensures var e := RevokeAt(d, i, c, t, arg, now, oids).0;
      |e.rows| == |d.rows| && SameIdentity(d.rows, e.rows) && e.named == d.named
  {
  }

  lemma RevokeIdentity(d: Db, c: Cert, t: RevType, arg: string, now: Date, oids: OidTable)
    ensures var e := Revoke(d, c, t, arg, now, oids).0;
      && SameIdentity(d.rows, e.rows) && d.named <= e.named
      && (|e.rows| == |d.rows| || (|e.rows| == |d.rows| + 1 && SameIdentity(d.rows + [NewRow(c)], e.rows)))
  {
    match FindSerial(d.rows, Serial(c.serial))
    case Some(i) => RevokeAtIdentity(d, i, c, t, arg, now, oids);
    case None =>
      if Insert(d, NewRow(c)).Some? { RevokeAtIdentity(Insert(d, NewRow(c)).value, |d.rows|, c, t, arg, now, oids); }
  }

  /** A name that is taken stays taken through every step of the same process. */
  lemma NameStaysTaken(s: State, step: Step, oids: OidTable, name: string)
    requires !step.Restart? && FindName(s.mem, name).Some?
    ensures FindName(Apply(s, step, oids).mem, name).Some?
  {
    var d, e := s.mem, Apply(s, step, oids).mem;
    var i := FindName(d, name).value;
    match step {
      case RevokeStep(c, t, arg, now) => RevokeIdentity(d, c, t, arg, now, oids);
      case ExpireStep(now) => ExpireShape(d.rows, now);
      case _ =>
    }
    assert i in e.named && i < |e.rows| && e.rows[i].name == name;
  }

  // ----- the name index since the last load -----

  /** With `d` as it was loaded: row `i` was valid then, or has been added since. */
  predicate Entered(d: Db, i: nat) {
    i < |d.rows| ==> IsValid(d.rows[i])
  }

  /** The name index holds exactly the rows that entered, and their names are distinct. */
  ghost predicate IndexedSince(d: Db, e: Db) {
    && |d.rows| <= |e.rows| && e.unique == d.unique
    && (forall i: nat :: i in e.named <==> d.unique && i < |e.rows| && Entered(d, i))
    && (d.unique ==> NamesDistinct(e.rows, e.named))
  }

  /** A row that entered is still valid, or has expired or been revoked since; no other is valid. */
  ghost predicate TypesSince(d: Db, rows: seq<Row>) {
    forall i: nat :: i < |rows| ==>
      if Entered(d, i) then TypeOf(rows[i]) in {'V', 'E', 'R'} else !IsValid(rows[i])
  }

  lemma AppendSince(d: Db, e: Db, c: Cert)
    requires IndexedSince(d, e) && TypesSince(d, e.rows) && Insert(e, NewRow(c)).Some?
    ensures IndexedSince(d, Insert(e, NewRow(c)).value) && TypesSince(d, Insert(e, NewRow(c)).value.rows)
  {
    var f := Insert(e, NewRow(c)).value;
    assert f.rows == e.rows + [NewRow(c)];
  }

  /** Rows may change as long as names stay, and types only from valid to expired or to revoked. */
  lemma ReplaceSince(d: Db, e: Db, rows: seq<Row>)
    requires IndexedSince(d, e) && TypesSince(d, e.rows) && |rows| == |e.rows| && SameIdentity(e.rows, rows)
    requires forall i :: 0 <= i < |rows| ==>
      rows[i].typ == e.rows[i].typ || (IsValid(e.rows[i]) && rows[i].typ == "E") || rows[i].typ == "R"
    ensures IndexedSince(d, e.(rows := rows)) && TypesSince(d, rows)
  {
    forall i: nat | i < |rows|
      ensures if Entered(d, i) then TypeOf(rows[i]) in {'V', 'E', 'R'} else !IsValid(rows[i])
    {
      assert if Entered(d, i) then TypeOf(e.rows[i]) in {'V', 'E', 'R'} else !IsValid(e.rows[i]);
    }
  }

  lemma RevokeAtSince(d: Db, e: Db, i: nat, c: Cert, t: RevType, arg: string, now: Date, oids: OidTable)
    requires IndexedSince(d, e) && TypesSince(d, e.rows) && i < |e.rows|
    ensures var f := RevokeAt(e, i, c, t, arg, now, oids).0; IndexedSince(d, f) && TypesSince(d, f.rows)
  {
    var f := RevokeAt(e, i, c, t, arg, now, oids).0;
    RevokeAtIdentity(e, i, c, t, arg, now, oids);
    ReplaceSince(d, e, f.rows);
    assert f == e.(rows := f.rows);
  }

  lemma RevokeSince(d: Db, e: Db, c: Cert, t: RevType, arg: string, now: Date, oids: OidTable)
    requires IndexedSince(d, e) && TypesSince(d, e.rows)
    ensures var f := Revoke(e, c, t, arg, now, oids).0; IndexedSince(d, f) && TypesSince(d, f.rows)
  {
    match FindSerial(e.rows, Serial(c.serial))
    case Some(i) => RevokeAtSince(d, e, i, c, t, arg, now, oids);
    case None =>
      if Insert(e, NewRow(c)).Some? {
        AppendSince(d, e, c);
        RevokeAtSince(d, Insert(e, NewRow(c)).value, |e.rows|, c, t, arg, now, oids);
      }
  }

  lemma StepSince(d: Db, s: State, step: Step, oids: OidTable)
    requires IndexedSince(d, s.mem) && TypesSince(d, s.mem.rows) && !step.Restart?
    ensures var e := Apply(s, step, oids).mem; IndexedSince(d, e) && TypesSince(d, e.rows)
  {
    match step
    case IssueStep(c, a) =>
      if Issue(s.mem, c, a).1 == 1 {
        assert Insert(s.mem, NewRow(c)) == Some(Issue(s.mem, c, a).0);
        AppendSince(d, s.mem, c);
      }
    case RevokeStep(c, t, arg, now) => RevokeSince(d, s.mem, c, t, arg, now, oids);
    case ExpireStep(now) =>
      ExpireShape(s.mem.rows, now);
      ReplaceSince(d, s.mem, ExpireRows(s.mem.rows, now).0);
    case _ =>
  }

  lemma {:induction false} RunSince(text: string, d: Db, steps: seq<Step>, oids: OidTable)
    requires Load(text, d.unique, oids) == Some(d) && OneProcess(steps)
    ensures var e := Run(State(text, d), steps, oids).mem; IndexedSince(d, e) && TypesSince(d, e.rows)
    decreases |steps|
  {
    if steps == [] {
      LoadedIsSound(text, d.unique, oids, d);
    } else {
      var n := |steps| - 1;
      RunSince(text, d, steps[..n], oids);
      StepSince(d, Run(State(text, d), steps[..n], oids), steps[n], oids);
    }
  }

  /** After any run since a load: a lookup by name finds a row exactly when subjects must be
      unique, the row has that name, and it was valid when loaded or has been added since,
      whether or not it still is valid. */
  lemma NameFoundExactly(text: string, d: Db, steps: seq<Step>, oids: OidTable, name: string, i: nat)
    requires Load(text, d.unique, oids) == Some(d) && OneProcess(steps)
    ensures var e := Run(State(text, d), steps, oids).mem;
      FindName(e, name) == Some(i) <==> d.unique && i < |e.rows| && e.rows[i].name == name && Entered(d, i)
  {
    RunSince(text, d, steps, oids);
    FoundInIndex(d, Run(State(text, d), steps, oids).mem, name, i);
  }

  lemma FoundInIndex(d: Db, e: Db, name: string, i: nat)
    requires IndexedSince(d, e)
    ensures FindName(e, name) == Some(i) <==> d.unique && i < |e.rows| && e.rows[i].name == name && Entered(d, i)
  {
    if i in e.named && e.rows[i].name == name {
      var f := FindName(e, name);
      assert f.Some? && f.value in e.named;
    }
  }

  /** No valid row has the subject. */
  ghost predicate NoValidHolder(rows: seq<Row>, c: Cert) {
    forall i :: 0 <= i < |rows| && IsValid(rows[i]) ==> rows[i].name != NewRow(c).name
  }

  /** A row of that name that was valid when loaded or added, and has expired or been revoked since. */
  ghost predicate StaleHolder(d: Db, rows: seq<Row>, c: Cert, i: nat) {
    i < |rows| && rows[i].name == NewRow(c).name && Entered(d, i) && TypeOf(rows[i]) in {'E', 'R'}
  }

  /** A subject is refused although no valid row has it, exactly when a row that has it expired or
      was revoked since the load. */
  lemma StaleNameExact(text: string, d: Db, steps: seq<Step>, oids: OidTable, c: Cert)
    requires Load(text, d.unique, oids) == Some(d) && d.unique && OneProcess(steps)
    ensures var e := Run(State(text, d), steps, oids).mem;
      !NameFree(e, c) && NoValidHolder(e.rows, c) <==> exists i :: StaleHolder(d, e.rows, c, i)
  {
    var e := Run(State(text, d), steps, oids).mem;
    RunSince(text, d, steps, oids);
    if !NameFree(e, c) && NoValidHolder(e.rows, c) {
      var i :| 0 <= i < |e.rows| && i in e.named && e.rows[i].name == NewRow(c).name;
      assert StaleHolder(d, e.rows, c, i);
    }
    forall i | StaleHolder(d, e.rows, c, i) ensures !NameFree(e, c) && NoValidHolder(e.rows, c) {
      HolderIsOnly(d, e, c, i);
    }
  }

  lemma HolderIsOnly(d: Db, e: Db, c: Cert, i: nat)
    requires IndexedSince(d, e) && TypesSince(d, e.rows) && d.unique && StaleHolder(d, e.rows, c, i)
    ensures !NameFree(e, c) && NoValidHolder(e.rows, c)
  {
    assert i in e.named;
    forall j | 0 <= j < |e.rows| && IsValid(e.rows[j]) ensures e.rows[j].name != NewRow(c).name {
      assert Entered(d, j) && j in e.named && j != i;
    }
  }

  /** The file with this one row, and the process that has loaded it. */
  ghost function Alone(r: Row): State {
    State(FileText([r]), Db([r], if IsValid(r) then {0} else {}, true))
  }

  lemma AloneIsLoaded(r: Row, oids: OidTable)
    requires RowOk(r, oids) && Storable(FieldsOf(r))
    ensures Load(Alone(r).disk, true, oids) == Some(Alone(r).mem)
  {
    LoadOfFileText([r], true, oids);
    assert ValidAt([r]) == if IsValid(r) then {0} else {};
  }

  /** Writing and loading again drops a row that is no longer valid from the name index. */
  lemma Reloaded(x: Row, disk: string, oids: OidTable)
    requires RowOk(x, oids) && Storable(FieldsOf(x))
    ensures var e := State(disk, Db([x], {0}, true)); Apply(Apply(e, Commit, oids), Restart, oids) == Alone(x)
  {
    AloneIsLoaded(x, oids);
  }

  lemma TakenOrFree(x: Row, c: Cert)
    requires x.name == NewRow(c).name && Key(x.serial) != Key(Serial(c.serial))
    ensures Issue(Db([x], {0}, true), c, Signed).1 == -1
    ensures Issue(Db([x], {}, true), c, Signed).1 == 1
  {
    assert FindNameFrom(Db([x], {0}, true), x.name, 0) == Some(0);
    assert FindSerialFrom([x], Serial(c.serial), 0).None?;
  }

  /** The only row expires; its subject stays taken until the file is written and loaded again. */
  lemma ExpiredAlone(c: Cert, c2: Cert, now: Date, oids: OidTable)
    requires CleanCert(c) && Due(ParseTime(c.notAfter).value, now)
    requires NewRow(c2).name == NewRow(c).name && c2.serial != c.serial
    ensures var s := Alone(NewRow(c));
      var e := Apply(s, ExpireStep(now), oids);
      var f := Apply(Apply(e, Commit, oids), Restart, oids);
      && Load(s.disk, true, oids) == Some(s.mem)
      && NoValidHolder(e.mem.rows, c2)
      && Issue(e.mem, c2, Signed).1 == -1
      && Issue(f.mem, c2, Signed).1 == 1
  {
    var r := NewRow(c);
    var x := r.(typ := "E");
    NewRowOk(c, oids);
    NewRowStorable(c);
    AloneIsLoaded(r, oids);
    ExpireOne(r, now);
    ExpiredStorable(r);
    Reloaded(x, FileText([r]), oids);
    if Key(x.serial) == Key(Serial(c2.serial)) { SerialInjective(c.serial, c2.serial); }
    TakenOrFree(x, c2);
  }

  lemma ExpireOne(r: Row, now: Date)
    requires IsValid(r) && ParseTime(r.exp).Some? && Due(ParseTime(r.exp).value, now)
    ensures ExpireRows([r], now).0 == [r.(typ := "E")]
  {
    assert [r][1..] == [];
  }

  /** A concrete case: at the end of 2025 the certificate of `/CN=a` expires, and a new one for the
      same subject is refused by the process that noticed, and issued by the next. */
  lemma ExpiredNameStaysTaken(oids: OidTable)
    ensures var last := Tm(2025, 12, 31, 23, 59, 59);
      var s := Alone(NewRow(Cert(1, "/CN=a", Format(last))));
      var c := Cert(2, "/CN=a", Format(Tm(2026, 12, 31, 23, 59, 59)));
      var e := Apply(s, ExpireStep(last), oids);
      var f := Apply(Apply(e, Commit, oids), Restart, oids);
      && Load(s.disk, true, oids) == Some(s.mem)
      && NoValidHolder(e.mem.rows, c) && Issue(e.mem, c, Signed).1 == -1 && Issue(f.mem, c, Signed).1 == 1
  {
    PrintedTimeReadsBack(Utc, Tm(2025, 12, 31, 23, 59, 59));
    ExpiredAlone(Cert(1, "/CN=a", Format(Tm(2025, 12, 31, 23, 59, 59))),
                 Cert(2, "/CN=a", Format(Tm(2026, 12, 31, 23, 59, 59))),
                 Tm(2025, 12, 31, 23, 59, 59), oids);
  }

  // ----- what all rows have in common -----

  /** A property of a row's serial and name. */
  ghost predicate AllRows(rows: seq<Row>, p: (string, string) -> bool) {
    forall i :: 0 <= i < |rows| ==> p(rows[i].serial, rows[i].name)
  }

  ghost predicate CertHas(c: Cert, p: (string, string) -> bool) {
    p(NewRow(c).serial, NewRow(c).name)
  }

  ghost predicate StepHas(step: Step, p: (string, string) -> bool) {
    match step
    case IssueStep(c, _) => CertHas(c, p)
    case RevokeStep(c, _, _, _) => CertHas(c, p)
    case _ => true
  }

  /** All rows have the property, in memory and on file. */
  ghost predicate Everywhere(s: State, p: (string, string) -> bool, oids: OidTable) {
    AllRows(s.mem.rows, p) && AllRows(OnFile(s, oids), p)
  }

  lemma RevokeKeepsAll(d: Db, c: Cert, t: RevType, arg: string, now: Date, oids: OidTable, p: (string, string) -> bool)
    requires AllRows(d.rows, p) && CertHas(c, p)
    ensures AllRows(Revoke(d, c, t, arg, now, oids).0.rows, p)
  {
    RevokeIdentity(d, c, t, arg, now, oids);
    assert AllRows(d.rows + [NewRow(c)], p);
  }

  lemma MemoryKeepsAll(s: State, step: Step, oids: OidTable, p: (string, string) -> bool)
    requires AllRows(s.mem.rows, p) && StepHas(step, p) && !step.Commit? && !step.Restart?
    ensures AllRows(Apply(s, step, oids).mem.rows, p) && Apply(s, step, oids).disk == s.disk
    ensures Apply(s, step, oids).mem.unique == s.mem.unique
  {
    match step
    case IssueStep(c, a) => assert AllRows(s.mem.rows + [NewRow(c)], p);
    case RevokeStep(c, t, arg, now) =>
      RevokeKeepsAll(s.mem, c, t, arg, now, oids, p);
      RevokeExtends(s.mem, c, t, arg, now, oids);
    case ExpireStep(now) => ExpireShape(s.mem.rows, now);
    case _ =>
  }

  lemma StepKeepsAll(s: State, step: Step, oids: OidTable, p: (string, string) -> bool)
    requires Inv(s, oids) && Everywhere(s, p, oids) && StepHas(step, p)
    ensures Everywhere(Apply(s, step, oids), p, oids)
  {
    match step
    case Commit => CommitStepFollows(s, oids);
    case Restart => RestartStepFollows(s, oids);
    case _ => MemoryKeepsAll(s, step, oids, p);
  }

  /** A property of serials and names that the rows have at the start, and every certificate
      of a clean run has, holds of all rows after the run. */
  lemma {:induction false} RunKeepsAll(s: State, steps: seq<Step>, oids: OidTable, p: (string, string) -> bool)
    requires Inv(s, oids) && CleanRun(s, steps, oids) && Everywhere(s, p, oids)
    requires forall i :: 0 <= i < |steps| ==> StepHas(steps[i], p)
    ensures Everywhere(Run(s, steps, oids), p, oids)
    decreases |steps|
  {
    if steps != [] {
      var n := |steps| - 1;
      RunKeepsAll(s, steps[..n], oids, p);
      RunsStayLoadable(s, steps[..n], oids);
      StepKeepsAll(Run(s, steps[..n], oids), steps[n], oids, p);
    }
  }

  // ----- empty subjects -----

  /** A row is named by a subject line, which starts with a slash, or by its own serial. */
  predicate ProperName(serial: string, name: string) {
    (name != "" && name[0] == '/') || name == serial
  }

  lemma EmptySubject(d: Db, serial: int, notAfter: string, a: Answer)
    requires AllRows(d.rows, ProperName)
    ensures var c := Cert(serial, "", notAfter); Issue(d, c, a).1 == 1 <==> SerialFree(d, c) && a.Signed?
  {
    IssueSucceeds(d, Cert(serial, "", notAfter), a);
    SerialHasSyntax(serial);
    assert Serial(serial)[0] != '/';
  }

  /** Certificates with empty subjects do not clash with each other: after any run in which
      subjects are empty or start with a slash, such a certificate is refused only when its
      serial is taken or it is not signed. */
  lemma EmptySubjectsDoNotClash(s: State, steps: seq<Step>, oids: OidTable, serial: int, notAfter: string, a: Answer)
    requires Inv(s, oids) && CleanRun(s, steps, oids) && Everywhere(s, ProperName, oids)
    requires forall i :: 0 <= i < |steps| && (steps[i].IssueStep? || steps[i].RevokeStep?) ==>
      steps[i].cert.subject == "" || steps[i].cert.subject[0] == '/'
    ensures var d, c := Run(s, steps, oids).mem, Cert(serial, "", notAfter);
      Issue(d, c, a).1 == 1 <==> SerialFree(d, c) && a.Signed?
  {
    RunKeepsAll(s, steps, oids, ProperName);
    EmptySubject(Run(s, steps, oids).mem, serial, notAfter, a);
  }
}
