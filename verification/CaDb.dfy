/**
 The certificate index of the `ca` program as a state machine: issuing, adding,
 revoking and expiring rows in memory, committing them to the index file and
 loading that file again.
 */
module CaDb {
  import opened Wrappers
  import opened Calendar
  import opened Asn1Time
  import opened RevInfo
  import opened SerialText
  import opened TxtDb

  datatype Row = Row(typ: string, exp: string, rev: string, serial: string, file: string, name: string)

  /** The program looks at the first character of the type field only. */
  function TypeOf(r: Row): char {
    if r.typ == "" then '\0' else r.typ[0]
  }

  predicate IsValid(r: Row) { TypeOf(r) == 'V' }
  predicate IsRevoked(r: Row) { TypeOf(r) == 'R' }

  /** The index in memory. `named` holds the positions in the name index: rows that
      were valid when they entered it, and that stay there until the next load. */
  datatype Db = Db(rows: seq<Row>, named: set<nat>, unique: bool)

  /** What the index needs to know of a certificate: serial, one-line subject, expiry. */
  datatype Cert = Cert(serial: int, subject: string, notAfter: string)

  // ----- lookups (TXT_DB_get_by_index) -----

  function FindSerialFrom(rows: seq<Row>, serial: string, from: nat): (r: Option<nat>)
    requires from <= |rows|
    ensures r.Some? ==> from <= r.value < |rows| && Key(rows[r.value].serial) == Key(serial)
    ensures r.None? ==> forall i :: from <= i < |rows| ==> Key(rows[i].serial) != Key(serial)
    decreases |rows| - from
  {
    if from == |rows| then None
    else if Key(rows[from].serial) == Key(serial) then Some(from)
    else FindSerialFrom(rows, serial, from + 1)
  }

  function FindSerial(rows: seq<Row>, serial: string): Option<nat> {
    FindSerialFrom(rows, serial, 0)
  }

  function FindNameFrom(d: Db, name: string, from: nat): (r: Option<nat>)
    requires from <= |d.rows|
    ensures r.Some? ==> from <= r.value < |d.rows| && r.value in d.named && d.rows[r.value].name == name
    ensures r.None? ==> forall i :: from <= i < |d.rows| && i in d.named ==> d.rows[i].name != name
    decreases |d.rows| - from
  {
    if from == |d.rows| then None
    else if from in d.named && d.rows[from].name == name then Some(from)
    else FindNameFrom(d, name, from + 1)
  }

  function FindName(d: Db, name: string): Option<nat> {
    FindNameFrom(d, name, 0)
  }

  // ----- the loader (ca_main, index_index) -----

  predicate RowOk(r: Row, oids: OidTable) {
    match r
    case Row(_, exp, rev, serial, _, _) =>
      && (if IsRevoked(r) then EntryOf(rev, oids).Some? else rev == "")
      && ParseTime(exp).Some?
      && SerialSyntax(serial)
  }

  predicate Hexadecimal(c: char) {
    '0' <= c <= '9' || 'a' <= c <= 'f' || 'A' <= c <= 'F'
  }

  /** A serial text as the loader wants it: pairs of hexadecimal digits after an optional minus sign. */
  ghost predicate SerialSpelled(serial: string, digits: string) {
    && (serial == digits || serial == "-" + digits)
    && |digits| >= 2 && |digits| % 2 == 0
    && forall i :: 0 <= i < |digits| ==> Hexadecimal(digits[i])
  }

  lemma SerialSyntaxExact(serial: string)
    ensures SerialSyntax(serial) <==> exists digits :: SerialSpelled(serial, digits)
  {
    if SerialSyntax(serial) {
      if serial[0] == '-' {
        assert serial == "-" + serial[1..];
        assert SerialSpelled(serial, serial[1..]);
      } else {
        assert SerialSpelled(serial, serial);
      }
    }
    forall digits | SerialSpelled(serial, digits) ensures SerialSyntax(serial) { SpelledHasSyntax(serial, digits); }
  }

  lemma SpelledHasSyntax(serial: string, digits: string)
    requires SerialSpelled(serial, digits)
    ensures SerialSyntax(serial)
  {
    assert Hexadecimal(digits[0]);
    if serial != digits { assert serial[1..] == digits; }
  }

  ghost predicate TimeSpelled(s: string, k: Kind, f: Form) {
    ValidForm(k, f) && s == FormText(k, f)
  }

  lemma ReadsKind(s: string, k: Kind)
    ensures Parse(k, s).Some? <==> exists f :: TimeSpelled(s, k, f)
  {
    if Parse(k, s).Some? {
      ParseExact(k, s, Parse(k, s).value);
      var f :| Writes(k, f, s, Parse(k, s).value);
      assert TimeSpelled(s, k, f);
    }
    forall f | TimeSpelled(s, k, f) ensures Parse(k, s).Some? { FormReads(k, f); }
  }

  lemma ReadsTime(s: string)
    ensures ParseTime(s).Some? <==> exists k, f :: TimeSpelled(s, k, f)
  {
    ReadsKind(s, Utc);
    ReadsKind(s, Generalized);
    if k, f :| TimeSpelled(s, k, f) {
      assert k == Utc || k == Generalized;
    }
  }

  /** The texts of a row that the loader accepts: a readable revocation exactly for a revoked row, a
      time in one of the two forms, and pairs of hexadecimal digits. */
  lemma RowOkExact(r: Row, oids: OidTable)
    ensures RowOk(r, oids) <==>
      && (if r.typ != "" && r.typ[0] == 'R' then exists info :: Unpack(r.rev, oids) == Unpacked(info) else r.rev == "")
      && (exists k, f :: TimeSpelled(r.exp, k, f))
      && (exists digits :: SerialSpelled(r.serial, digits))
  {
    ReadsTime(r.exp);
    SerialSyntaxExact(r.serial);
  }

  ghost predicate RowsOk(rows: seq<Row>, oids: OidTable) {
    forall i :: 0 <= i < |rows| ==> RowOk(rows[i], oids)
  }

  ghost predicate SerialsDistinct(rows: seq<Row>) {
    forall i, j :: 0 <= i < j < |rows| ==> Key(rows[i].serial) != Key(rows[j].serial)
  }

  ghost predicate NamesDistinct(rows: seq<Row>, at: set<nat>) {
    forall i, j :: 0 <= i < j < |rows| && i in at && j in at ==> rows[i].name != rows[j].name
  }

  ghost function ValidAt(rows: seq<Row>): set<nat> {
    set i | 0 <= i < |rows| && IsValid(rows[i]) :: i
  }

  /** The loader accepts these rows. */
  ghost predicate Loadable(rows: seq<Row>, unique: bool, oids: OidTable) {
    && RowsOk(rows, oids)
    && SerialsDistinct(rows)
    && (unique ==> NamesDistinct(rows, ValidAt(rows)))
  }

  // ----- steps on the index in memory -----

  function NewRow(c: Cert): Row {
    var serial := Serial(c.serial);
    Row("V", c.notAfter, "", serial, "unknown", if c.subject == "" then serial else c.subject)
  }

  /** `TXT_DB_insert` refuses a row that clashes in either index. */
  function Insert(d: Db, r: Row): Option<Db> {
    var indexed := d.unique && IsValid(r);
    if FindSerial(d.rows, r.serial).Some? || (indexed && FindName(d, r.name).Some?) then None
    else Some(Db(d.rows + [r], if indexed then d.named + {|d.rows|} else d.named, d.unique))
  }

  datatype Answer = Declined | SigningFailed | Signed

  /** The end of `do_body`: 1 when a row is added, 0 when the operator declines, -1 on error. */
  function Issue(d: Db, c: Cert, a: Answer): (r: (Db, int))
  {
    var row := NewRow(c);
    if (d.unique && FindName(d, row.name).Some?) || FindSerial(d.rows, row.serial).Some? then (d, -1)
    else match a
      case Declined => (d, 0)
      case SigningFailed => (d, -1)
      case Signed => (Db(d.rows + [row], if d.unique then d.named + {|d.rows|} else d.named, d.unique), 1)
  }

  /** Writing "R" over the type text; an empty type text has no room for it, and the
      terminator then lands on the expiry text that follows it in memory. */
  function Mark(r: Row, text: string): Row {
    r.(typ := "R", rev := text, exp := if r.typ == "" then "" else r.exp)
  }

  function RevokeAt(d: Db, i: nat, c: Cert, t: RevType, arg: string, now: Date, oids: OidTable): (Db, bool)
    requires i < |d.rows|
  {
    var r := d.rows[i];
    if r.name != NewRow(c).name || t.RevValid? || IsRevoked(r) then (d, false)
    else
      match RevocationText(t, arg, now, oids)
      case None => (d, false)
      case Some(text) => (d.(rows := d.rows[i := Mark(r, text)]), true)
  }

  /** `do_revoke`: an unknown certificate is added as valid and then revoked. */
  function Revoke(d: Db, c: Cert, t: RevType, arg: string, now: Date, oids: OidTable): (Db, bool)
  {
    match FindSerial(d.rows, Serial(c.serial))
    case Some(i) => RevokeAt(d, i, c, t, arg, now, oids)
    case None =>
      match Insert(d, NewRow(c))
      case None => (d, false)
      case Some(e) => if t.RevValid? then (e, true) else RevokeAt(e, |d.rows|, c, t, arg, now, oids)
  }

  /** Past its expiry; an expiry that no calendar date expresses counts as past. */
  predicate Due(exp: Stamp, now: Date) {
    match Denoted(exp)
    case None => true
    case Some(u) => Compare(u, now) <= 0
  }

  /** `do_updatedb`: stops with -1 at a valid row whose expiry cannot be read. */
  function ExpireRows(rows: seq<Row>, now: Date): (r: (seq<Row>, int))
    ensures |r.0| == |rows| && r.1 >= -1
  {
    if rows == [] then ([], 0)
    else
      match ExpireRow(rows[0], now)
      case None => (rows, -1)
      case Some((r, one)) =>
        var (rest, cnt) := ExpireRows(rows[1..], now);
        ([r] + rest, if cnt < 0 then -1 else cnt + one)
  }

  /** One row and whether it expired; None when it is valid and its expiry cannot be read. */
  function ExpireRow(r: Row, now: Date): (e: Option<(Row, nat)>) {
    if !IsValid(r) then Some((r, 0))
    else
      match ParseTime(r.exp)
      case None => None
      case Some(exp) => Some(if Due(exp, now) then (r.(typ := "E"), 1) else (r, 0))
  }

  // ----- the index object -----

  class Index {
    var rows: seq<Row>
    var named: set<nat>
    const unique: bool

    constructor (rows: seq<Row>, unique: bool)
      ensures this.rows == rows && this.named == {} && this.unique == unique
    {
      this.rows, this.named, this.unique := rows, {}, unique;
    }

    function View(): Db
      reads this
    {
      Db(rows, named, unique)
    }

    /** The field checks of the loader, row by row. */
    method CheckFields(oids: OidTable) returns (ok: bool)
      ensures ok <==> RowsOk(rows, oids)
    {
      for i := 0 to |rows|
        invariant forall j :: 0 <= j < i ==> RowOk(rows[j], oids)
      {
        var rowOk := CheckRow(rows[i], oids);
        if !rowOk {
          return false;
        }
      }
      ok := true;
    }

    static method CheckRow(r: Row, oids: OidTable) returns (ok: bool)
      ensures ok == RowOk(r, oids)
    {
      if TypeOf(r) != 'R' && r.rev != "" {
        return false;
      }
      if TypeOf(r) == 'R' {
        var code, _ := MakeRevoked(r.rev, oids);
        if code == 0 {
          return false;
        }
      }
      if ParseTime(r.exp).None? {
        return false;
      }
      ok := CheckSerial(r.serial);
    }

    static method CheckSerial(serial: string) returns (ok: bool)
      ensures ok == SerialSyntax(serial)
    {
      var p := serial;
      if p != "" && p[0] == '-' {
        p := p[1..];
      }
      if |p| % 2 == 1 || |p| < 2 {
        return false;
      }
      for k := 0 to |p|
        invariant forall j :: 0 <= j < k ==> IsHexDigit(p[j])
      {
        if !IsHexDigit(p[k]) {
          return false;
        }
      }
      ok := true;
    }

    /** Builds the serial index and, when subjects must be unique, the name index. */
    method BuildIndexes() returns (ok: bool)
      modifies this
      ensures rows == old(rows)
      ensures ok <==> SerialsDistinct(rows) && (unique ==> NamesDistinct(rows, ValidAt(rows)))
      ensures ok ==> named == if unique then ValidAt(rows) else {}
    {
      for i := 0 to |rows|
        invariant SerialsDistinct(rows[..i])
      {
        if FindSerial(rows[..i], rows[i].serial).Some? {
          var k := FindSerial(rows[..i], rows[i].serial).value;
          assert Key(rows[k].serial) == Key(rows[i].serial);
          return false;
        }
      }
      assert rows[..|rows|] == rows;
      named := {};
      if unique {
        for i := 0 to |rows|
          invariant rows == old(rows)
          invariant named == ValidAt(rows[..i])
          invariant NamesDistinct(rows[..i], named)
        {
          assert rows[..i + 1][..i] == rows[..i];
          if IsValid(rows[i]) {
            var d := Db(rows[..i], named, true);
            if FindName(d, rows[i].name).Some? {
              var k := FindName(d, rows[i].name).value;
              assert k in ValidAt(rows) && i in ValidAt(rows);
              return false;
            }
            named := named + {i};
          }
        }
        assert rows[..|rows|] == rows;
      }
      ok := true;
    }

    method InsertRow(r: Row) returns (ok: bool)
      modifies this
      ensures var e := old(Insert(View(), r)); ok == e.Some? && View() == if ok then e.value else old(View())
    {
      var v := View();
      if FindSerial(rows, r.serial).Some? {
        return false;
      }
      if unique && IsValid(r) {
        if FindName(v, r.name).Some? {
          return false;
        }
        named := named + {|rows|};
      }
      rows := rows + [r];
      ok := true;
    }

    /** The insertion at the end never fails: both clashes were ruled out before signing. */
    method IssueCertificate(c: Cert, a: Answer) returns (ok: int)
      modifies this
      ensures (View(), ok) == old(Issue(View(), c, a))
    {
      var row := NewRow(c);
      var v := View();
      if unique && FindName(v, row.name).Some? {
        return -1;
      }
      if FindSerial(rows, row.serial).Some? {
        return -1;
      }
      match a
      case Declined => ok := 0;
      case SigningFailed => ok := -1;
      case Signed =>
        var inserted := InsertRow(row);
        assert inserted;
        ok := 1;
    }

    /** Retries at most once: after the insertion the serial is found. */
    method DoRevoke(c: Cert, t: RevType, arg: string, now: Date, oids: OidTable) returns (ok: bool)
        modifies this
      ensures (View(), ok) == old(Revoke(View(), c, t, arg, now, oids))
      decreases if FindSerial(rows, Serial(c.serial)).Some? then 0 else 1
    {
      var row := NewRow(c);
      var found := FindSerial(rows, row.serial);
      if found.None? {
        var inserted := InsertRow(row);
        if !inserted {
          return false;
        }
        if t.RevValid? {
          return true;
        }
        FoundAfterInsert(old(rows), row);
        ok := DoRevoke(c, t, arg, now, oids);
      } else if rows[found.value].name != row.name {
        ok := false;
      } else if t.RevValid? {
        ok := false;
      } else if IsRevoked(rows[found.value]) {
        ok := false;
      } else {
        var text := MakeRevocationStr(t, arg, now, oids);
        if text.None? {
          return false;
        }
        rows := rows[found.value := Mark(rows[found.value], text.value)];
        ok := true;
      }
    }

    static method UpdateRow(r: Row, now: Date) returns (e: Option<(Row, nat)>)
      ensures e == ExpireRow(r, now)
    {
      if TypeOf(r) != 'V' {
        return Some((r, 0));
      }
      var exp := ParseTime(r.exp);
      if exp.None? {
        return None;
      }
      if Due(exp.value, now) {
        return Some((r.(typ := "E"), 1));
      }
      e := Some((r, 0));
    }

    method UpdateDb(now: Date) returns (cnt: int)
      modifies this
      ensures named == old(named)
      ensures (rows, cnt) == old(ExpireRows(rows, now))
    {
      cnt := 0;
      ghost var start := rows;
      ExpireStart(start, now);
      for i := 0 to |rows|
        invariant |rows| == |start| && named == old(named) && cnt >= 0
        invariant Expiring(start, rows, i, cnt, now)
      {
        ExpireStep(start, rows, i, cnt, now);
        var e := UpdateRow(rows[i], now);
        if e.None? {
          return -1;
        }
        rows := rows[i := e.value.0];
        cnt := cnt + e.value.1;
      }
      ExpireDone(start, rows, cnt, now);
    }
  }

  lemma FoundAfterInsert(rows: seq<Row>, r: Row)
    requires FindSerial(rows, r.serial).None?
    ensures FindSerial(rows + [r], r.serial) == Some(|rows|)
  {
    assert (rows + [r])[|rows|] == r;
    assert forall i :: 0 <= i < |rows| ==> (rows + [r])[i] == rows[i];
  }

  function Resume(done: seq<Row>, cnt: int, rest: (seq<Row>, int)): (seq<Row>, int) {
    (done + rest.0, if rest.1 < 0 then -1 else cnt + rest.1)
  }

  /** The rows before `i` are done, the others are as they were. */
  ghost predicate Expiring(start: seq<Row>, rows: seq<Row>, i: nat, cnt: int, now: Date)
    requires i <= |rows| == |start|
  {
    rows[i..] == start[i..] && ExpireRows(start, now) == Resume(rows[..i], cnt, ExpireRows(start[i..], now))
  }

  lemma ExpireStart(start: seq<Row>, now: Date)
    ensures Expiring(start, start, 0, 0, now)
  {
    assert start[..0] == [] && start[0..] == start;
    assert [] + ExpireRows(start, now).0 == ExpireRows(start, now).0;
  }

  lemma ExpireDone(start: seq<Row>, rows: seq<Row>, cnt: int, now: Date)
    requires |rows| == |start| && Expiring(start, rows, |rows|, cnt, now)
    ensures ExpireRows(start, now) == (rows, cnt)
  {
    assert start[|rows|..] == [] && rows[..|rows|] + [] == rows;
  }

  lemma ExpireStep(start: seq<Row>, rows: seq<Row>, i: nat, cnt: int, now: Date)
    requires i < |rows| == |start| && Expiring(start, rows, i, cnt, now)
    ensures var e := ExpireRow(rows[i], now);
      if e.None? then ExpireRows(start, now) == (rows, -1)
      else Expiring(start, rows[i := e.value.0], i + 1, cnt + e.value.1, now)
  {
    assert start[i..][0] == rows[i..][0] == rows[i] && start[i..][1..] == start[i + 1..];
    var e := ExpireRow(rows[i], now);
    if e.None? {
      assert rows[..i] + start[i..] == rows;
    } else {
      var r := e.value.0;
      ResumeRow(rows[..i], cnt, r, e.value.1, ExpireRows(start[i + 1..], now));
      assert rows[..i] + [r] == rows[i := r][..i + 1];
      assert rows[i := r][i + 1..] == rows[i..][1..] == start[i + 1..];
    }
  }

  lemma ResumeRow(done: seq<Row>, cnt: int, r: Row, one: int, rest: (seq<Row>, int))
    requires rest.1 >= -1 && 0 <= one
    ensures Resume(done, cnt, ([r] + rest.0, if rest.1 < 0 then -1 else rest.1 + one))
         == Resume(done + [r], cnt + one, rest)
  {
    assert done + ([r] + rest.0) == done + [r] + rest.0;
  }
}
