/**
 The two ways a revocation is published from one index: the CRL written by
 `ca -gencrl` and the answers of the OCSP responder, and their agreement.
 */
module CaStatus {
  import opened Wrappers
  import opened Calendar
  import opened Asn1Time
  import opened RevInfo
  import opened SerialText
  import opened CaDb
  import opened CaRuns

  // ----- the CRL -----

  datatype Listed = Listed(serial: int, entry: Entry)

  datatype Crl = Crl(version: nat, entries: seq<Listed>)

  /** The order of `X509_CRL_sort`: encoded length and bytes first, then the sign. */
  predicate SerialLe(m: int, n: int) {
    var a, b := if m < 0 then -m else m, if n < 0 then -n else n;
    a < b || (a == b && m >= n)
  }

  function InsertSorted(s: seq<Listed>, e: Listed): (r: seq<Listed>)
    ensures multiset(r) == multiset(s) + multiset{e}
    ensures Ordered(s) ==> Ordered(r)
  {
    if s == [] || SerialLe(e.serial, s[0].serial) then
      assert ([e] + s)[1..] == s;
      [e] + s
    else
      assert s == [s[0]] + s[1..];
      [s[0]] + InsertSorted(s[1..], e)
  }

  ghost predicate Ordered(s: seq<Listed>) {
    s != [] ==> Ordered(s[1..]) && forall e :: e in multiset(s[1..]) ==> SerialLe(s[0].serial, e.serial)
  }

  function SortBySerial(s: seq<Listed>): (r: seq<Listed>)
    ensures multiset(r) == multiset(s) && Ordered(r)
  {
    if s == [] then [] else
      assert s == s[..|s| - 1] + [s[|s| - 1]];
      InsertSorted(SortBySerial(s[..|s| - 1]), s[|s| - 1])
  }

  /** The entry of a revoked row; None when its fields cannot be read. */
  function ListRow(r: Row, oids: OidTable): Option<Listed> {
    match (EntryOf(r.rev, oids), HexToBn(r.serial))
    case (Some(entry), Some(serial)) => Some(Listed(serial, entry))
    case _ => None
  }

  /** The entries of the revoked rows, in row order. */
  function ListRows(rows: seq<Row>, oids: OidTable): Option<seq<Listed>> {
    if rows == [] then Some([]) else
      match ListRows(rows[..|rows| - 1], oids)
      case None => None
      case Some(before) =>
        var r := rows[|rows| - 1];
        if !IsRevoked(r) then Some(before)
        else match ListRow(r, oids)
          case None => None
          case Some(e) => Some(before + [e])
  }

  ghost predicate HasExtensions(s: seq<Listed>) {
    exists i :: 0 <= i < |s| && s[i].entry.extensions != []
  }

  /** Writes a CRL from the rows. The version is 2 exactly when some entry, or the CRL
      itself, has extensions, as section 5.1.2.1 of RFC 5280 requires. */
  method MakeCrl(rows: seq<Row>, crlExt: bool, crlNumber: bool, oids: OidTable) returns (r: Option<Crl>)
    ensures r.Some? <==> ListRows(rows, oids).Some?
    ensures r.Some? ==>
      && multiset(r.value.entries) == multiset(ListRows(rows, oids).value)
      && Ordered(r.value.entries)
      && r.value.version == if crlExt || crlNumber || HasExtensions(r.value.entries) then 2 else 1
  {
    var entries: seq<Listed> := [];
    var v2 := false;
    for i := 0 to |rows|
      invariant ListRows(rows[..i], oids) == Some(entries)
      invariant v2 <==> HasExtensions(entries)
    {
      assert rows[..i + 1][..i] == rows[..i];
      if IsRevoked(rows[i]) {
        var code, entry := MakeRevoked(rows[i].rev, oids);
        if code == 0 {
          ListFails(rows, i, oids);
          return None;
        }
        var serial := HexToBn(rows[i].serial);
        if serial == None {
          ListFails(rows, i, oids);
          return None;
        }
        var e := Listed(serial.value, entry.value);
        HasExtensionsAppend(entries, e);
        if code == 2 { v2 := true; }
        entries := entries + [e];
      }
    }
    assert rows[..|rows|] == rows;
    var sorted := SortBySerial(entries);
    HasExtensionsPermutes(entries, sorted);
    r := Some(Crl(if crlExt || crlNumber || v2 then 2 else 1, sorted));
  }

  lemma HasExtensionsAppend(s: seq<Listed>, e: Listed)
    ensures HasExtensions(s + [e]) <==> HasExtensions(s) || e.entry.extensions != []
  {
    var t := s + [e];
    if HasExtensions(s) {
      var i :| 0 <= i < |s| && s[i].entry.extensions != [];
      assert t[i] == s[i];
    }
    assert t[|s|] == e;
  }

  lemma HasExtensionsPermutes(s: seq<Listed>, t: seq<Listed>)
    requires multiset(s) == multiset(t)
    ensures HasExtensions(s) <==> HasExtensions(t)
  {
    if HasExtensions(s) {
      var i :| 0 <= i < |s| && s[i].entry.extensions != [];
      assert s[i] in multiset(t);
      var j :| 0 <= j < |t| && t[j] == s[i];
    }
    if HasExtensions(t) {
      var i :| 0 <= i < |t| && t[i].entry.extensions != [];
      assert t[i] in multiset(s);
      var j :| 0 <= j < |s| && s[j] == t[i];
    }
  }

  /** One unreadable revoked row spoils the list. */
  lemma {:induction false} ListFails(rows: seq<Row>, i: nat, oids: OidTable)
    requires i < |rows| && IsRevoked(rows[i]) && ListRow(rows[i], oids).None?
    ensures ListRows(rows, oids).None?
    decreases |rows|
  {
    if i < |rows| - 1 { ListFails(rows[..|rows| - 1], i, oids); }
  }

  lemma {:induction false} ListReadable(rows: seq<Row>, oids: OidTable)
    requires forall i :: 0 <= i < |rows| && IsRevoked(rows[i]) ==> ListRow(rows[i], oids).Some?
    ensures ListRows(rows, oids).Some?
    decreases |rows|
  {
    if rows != [] { ListReadable(rows[..|rows| - 1], oids); }
  }

  lemma {:induction false} RowIsListed(rows: seq<Row>, i: nat, oids: OidTable)
    requires ListRows(rows, oids).Some? && i < |rows| && IsRevoked(rows[i]) && ListRow(rows[i], oids).Some?
    ensures ListRow(rows[i], oids).value in ListRows(rows, oids).value
    decreases |rows|
  {
    if i < |rows| - 1 { RowIsListed(rows[..|rows| - 1], i, oids); }
  }

  lemma {:induction false} ListedHasRow(rows: seq<Row>, e: Listed, oids: OidTable) returns (i: nat)
    requires ListRows(rows, oids).Some? && e in ListRows(rows, oids).value
    ensures i < |rows| && IsRevoked(rows[i]) && ListRow(rows[i], oids) == Some(e)
    decreases |rows|
  {
    var before, r := rows[..|rows| - 1], rows[|rows| - 1];
    if e in ListRows(before, oids).value {
      i := ListedHasRow(before, e, oids);
      assert rows[i] == before[i];
    } else {
      i := |rows| - 1;
    }
  }

  // ----- the OCSP responder -----

  /** A certificate id: digest, issuer hash, serial number. */
  datatype CertId = CertId(md: int, issuer: string, serial: Option<int>)

  datatype Request = Request(md: int, issuer: string, serial: int)

  datatype Status =
    | Unknown
    | GoodStatus
    | RevokedStatus(time: Stamp, reason: int, extension: Option<Extension>)

  datatype Single = Single(id: CertId, status: Status)

  datatype Response = MalformedRequest | InternalError | Successful(singles: seq<Single>)

  /** The issuers served, the digests known and the issuer hash of each issuer. */
  datatype Responder = Responder(cas: seq<string>, knownMd: int -> bool, hash: (int, string) -> string,
                                 respMd: Option<int>)

  predicate Issuer(p: Responder, q: Request, k: nat)
    requires k < |p.cas|
  {
    p.hash(q.md, p.cas[k]) == q.issuer
  }

  /** The first issuer that matches the id, or the number of issuers. */
  function FindIssuer(p: Responder, q: Request, from: nat): (k: nat)
    requires from <= |p.cas|
    ensures from <= k <= |p.cas|
    ensures k < |p.cas| ==> Issuer(p, q, k)
    ensures forall j :: from <= j < k ==> !Issuer(p, q, j)
    decreases |p.cas| - from
  {
    if from == |p.cas| || Issuer(p, q, from) then from else FindIssuer(p, q, from + 1)
  }

  /** The id put into the answer. With a response digest it is rebuilt from the issuer
      alone, so it carries no serial number. */
  function ResponseId(p: Responder, q: Request): CertId {
    var k := FindIssuer(p, q, 0);
    if k < |p.cas| && p.respMd.Some? then CertId(p.respMd.value, p.hash(p.respMd.value, p.cas[k]), None)
    else CertId(q.md, q.issuer, Some(q.serial))
  }

  /** The answer about one row: nothing for a type that is neither valid nor revoked,
      and an error when the time of revocation cannot be read. */
  datatype Reply = NoAnswer | Failed | Answered(status: Status)

  function RowStatus(r: Row, oids: OidTable): Reply {
    if IsValid(r) then Answered(GoodStatus)
    else if IsRevoked(r) then
      match Unpack(r.rev, oids)
      case BadTime => Failed
      case BadReason(time) => if Denoted(time).None? then Failed else Answered(RevokedStatus(time, NoReason, None))
      case Unpacked(info) =>
        if Denoted(info.time).None? then Failed
        else Answered(RevokedStatus(info.time, info.reason, ExtraOf(info)))
    else NoAnswer
  }

  function ExtraOf(info: Revocation): Option<Extension> {
    if info.invalidity.Some? then Some(InvalidityDate(info.invalidity.value))
    else if info.hold.Some? then Some(HoldInstruction(info.hold.value))
    else None
  }

  function SerialStatus(rows: seq<Row>, serial: int, oids: OidTable): Reply {
    match FindSerial(rows, Serial(serial))
    case None => Answered(Unknown)
    case Some(i) => RowStatus(rows[i], oids)
  }

  function AnswerTo(p: Responder, rows: seq<Row>, q: Request, oids: OidTable): Reply {
    if !p.knownMd(q.md) then Failed
    else if FindIssuer(p, q, 0) == |p.cas| then Answered(Unknown)
    else SerialStatus(rows, q.serial, oids)
  }

  /** The answers to the first requests; None after a failure. */
  function AnswerAll(p: Responder, rows: seq<Row>, qs: seq<Request>, oids: OidTable): Option<seq<Single>> {
    if qs == [] then Some([]) else
      match AnswerAll(p, rows, qs[..|qs| - 1], oids)
      case None => None
      case Some(before) =>
        var q := qs[|qs| - 1];
        match AnswerTo(p, rows, q, oids)
        case Failed => None
        case NoAnswer => Some(before)
        case Answered(status) => Some(before + [Single(ResponseId(p, q), status)])
  }

  /** The requests that get an answer. */
  ghost function Asked(p: Responder, rows: seq<Row>, qs: seq<Request>, oids: OidTable): seq<Request> {
    if qs == [] then [] else
      var q := qs[|qs| - 1];
      Asked(p, rows, qs[..|qs| - 1], oids) + if AnswerTo(p, rows, q, oids).Answered? then [q] else []
  }

  /** An answer names the certificate it is about exactly when no response digest is set, or
      the issuer is not one of those served; otherwise it names none. */
  ghost predicate NamesExactly(p: Responder, q: Request, s: Single) {
    && (s.id == CertId(q.md, q.issuer, Some(q.serial)) <==>
          p.respMd.None? || forall k :: 0 <= k < |p.cas| ==> !Issuer(p, q, k))
    && (s.id.serial == Some(q.serial) || s.id.serial == None)
  }

  lemma IdNamesExactly(p: Responder, q: Request, status: Status)
    ensures NamesExactly(p, q, Single(ResponseId(p, q), status))
  {
    var k := FindIssuer(p, q, 0);
    if k < |p.cas| { assert Issuer(p, q, k); }
  }

  /** The answers are those to the requests that get one, in order, each with its status, and
      each names its certificate exactly under that condition. */
  lemma {:induction false} ResponseNamesSerial(p: Responder, rows: seq<Row>, qs: seq<Request>, oids: OidTable)
    requires AnswerAll(p, rows, qs, oids).Some?
    ensures var s, asked := AnswerAll(p, rows, qs, oids).value, Asked(p, rows, qs, oids);
      && |s| == |asked|
      && forall k :: 0 <= k < |s| ==>
           NamesExactly(p, asked[k], s[k]) && AnswerTo(p, rows, asked[k], oids) == Answered(s[k].status)
    decreases |qs|
  {
    if qs != [] {
      ResponseNamesSerial(p, rows, qs[..|qs| - 1], oids);
      var q := qs[|qs| - 1];
      match AnswerTo(p, rows, q, oids)
      case Answered(status) => IdNamesExactly(p, q, status);
      case _ =>
    }
  }

  lemma {:induction false} AnswerFails(p: Responder, rows: seq<Row>, qs: seq<Request>, i: nat, oids: OidTable)
    requires i < |qs| && AnswerTo(p, rows, qs[i], oids).Failed?
    ensures AnswerAll(p, rows, qs, oids).None?
    decreases |qs|
  {
    if i < |qs| - 1 { AnswerFails(p, rows, qs[..|qs| - 1], i, oids); }
  }

  /** What a row says, by the letter of its type: a revoked row fails exactly when its time is not a
      UTCTime, and otherwise gives that time. */
  lemma RowStatusExact(r: Row, time: string, reason: Option<string>, arg: Option<string>, oids: OidTable)
    requires Splits(r.rev, time, reason, arg)
    ensures var s := RowStatus(r, oids);
      && (s == Answered(GoodStatus) <==> r.typ != "" && r.typ[0] == 'V')
      && (s == NoAnswer <==> r.typ == "" || (r.typ[0] != 'V' && r.typ[0] != 'R'))
      && (s == Failed <==> r.typ != "" && r.typ[0] == 'R' && Parse(Utc, time).None?)
      && (s.Answered? && s.status.RevokedStatus? ==> Parse(Utc, time) == Some(s.status.time))
  {
    PartsOfJoined(time, reason, arg);
    if Parse(Utc, time).Some? { UtcOnCalendar(time); }
    UnpackTime(r.rev, oids);
  }

  lemma UnpackTime(s: string, oids: OidTable)
    ensures match Unpack(s, oids)
      case BadTime => Parse(Utc, Parts(s).0).None?
      case BadReason(time) => Parse(Utc, Parts(s).0) == Some(time)
      case Unpacked(info) => Parse(Utc, Parts(s).0) == Some(info.time)
  {
    var (timeText, reason, arg) := Parts(s);
    var time := Parse(Utc, timeText);
    if time.Some? && reason.Some? { InterpretTime(time.value, FindReason(reason.value, 0, 11), arg, oids); }
  }

  lemma InterpretTime(time: Stamp, i: nat, arg: Option<string>, oids: OidTable)
    ensures match Interpret(time, i, arg, oids)
      case BadTime => false
      case BadReason(t) => t == time
      case Unpacked(info) => info.time == time
  {
  }

  ghost predicate Served(p: Responder, q: Request) {
    exists k :: 0 <= k < |p.cas| && Issuer(p, q, k)
  }

  /** An id is refused exactly when its digest is unknown, or its issuer is served and its row fails;
      it is of unknown status when its issuer is not served. */
  ghost predicate Refused(p: Responder, rows: seq<Row>, q: Request, oids: OidTable) {
    !p.knownMd(q.md) || (Served(p, q) && SerialStatus(rows, q.serial, oids).Failed?)
  }

  lemma AnswerExact(p: Responder, rows: seq<Row>, q: Request, oids: OidTable)
    ensures AnswerTo(p, rows, q, oids).Failed? <==> Refused(p, rows, q, oids)
    ensures p.knownMd(q.md) && Served(p, q) ==> AnswerTo(p, rows, q, oids) == SerialStatus(rows, q.serial, oids)
    ensures p.knownMd(q.md) && !Served(p, q) ==> AnswerTo(p, rows, q, oids) == Answered(Unknown)
  {
    var k := FindIssuer(p, q, 0);
    if k < |p.cas| { assert Issuer(p, q, k); }
  }

  /** The response fails exactly when some id of the request is refused. */
  lemma {:induction false} ResponseFails(p: Responder, rows: seq<Row>, qs: seq<Request>, oids: OidTable)
    ensures AnswerAll(p, rows, qs, oids).None? <==> exists i :: 0 <= i < |qs| && Refused(p, rows, qs[i], oids)
    decreases |qs|
  {
    if qs != [] {
      ResponseFails(p, rows, qs[..|qs| - 1], oids);
      AnswerExact(p, rows, qs[|qs| - 1], oids);
      RefusedLast(p, rows, qs, qs[..|qs| - 1], oids);
    }
  }

  lemma RefusedLast(p: Responder, rows: seq<Row>, qs: seq<Request>, before: seq<Request>, oids: OidTable)
    requires qs != [] && before == qs[..|qs| - 1]
    ensures (exists i :: 0 <= i < |qs| && Refused(p, rows, qs[i], oids)) <==>
      || Refused(p, rows, qs[|qs| - 1], oids)
      || exists i :: 0 <= i < |before| && Refused(p, rows, before[i], oids)
  {
    if i :| 0 <= i < |before| && Refused(p, rows, before[i], oids) { assert qs[i] == before[i]; }
    if i :| 0 <= i < |qs| - 1 && Refused(p, rows, qs[i], oids) { assert qs[i] == before[i]; }
  }

  /** The first row with the index key of a serial number. */
  ghost predicate FirstRow(rows: seq<Row>, serial: int, i: nat) {
    && i < |rows| && Key(rows[i].serial) == Key(Serial(serial))
    && forall j :: 0 <= j < i ==> Key(rows[j].serial) != Key(Serial(serial))
  }

  /** `lookup_serial`: the row of a serial number, or nothing when no row has its key. A row
      that the loader accepts has this very number. */
  method LookupSerial(rows: seq<Row>, serial: int) returns (row: Option<Row>)
    ensures row.None? <==> forall i :: 0 <= i < |rows| ==> Key(rows[i].serial) != Key(Serial(serial))
    ensures row.Some? ==> exists i: nat :: FirstRow(rows, serial, i) && rows[i] == row.value
    ensures row.Some? && SerialSyntax(row.value.serial) ==> HexToBn(row.value.serial) == Some(serial)
  {
    var text := if serial == 0 then "00" else BnToHex(serial);
    var i := FindSerial(rows, text);
    if i.None? {
      return None;
    }
    FoundIsFirst(rows, serial, 0);
    row := Some(rows[i.value]);
    if SerialSyntax(row.value.serial) { SameKeySameSerial(row.value.serial, serial); }
  }

  lemma {:induction false} FoundIsFirst(rows: seq<Row>, serial: int, from: nat)
    requires from <= |rows| && forall j :: 0 <= j < from ==> Key(rows[j].serial) != Key(Serial(serial))
    ensures var f := FindSerialFrom(rows, Serial(serial), from); f.Some? ==> FirstRow(rows, serial, f.value)
    decreases |rows| - from
  {
    if from < |rows| && Key(rows[from].serial) != Key(Serial(serial)) { FoundIsFirst(rows, serial, from + 1); }
  }

  lemma LookupIsFind(rows: seq<Row>, serial: int, i: nat)
    requires FirstRow(rows, serial, i)
    ensures FindSerial(rows, Serial(serial)) == Some(i)
  {
    FoundIsFirst(rows, serial, 0);
  }

  lemma LookupAnswers(rows: seq<Row>, serial: int, row: Option<Row>, oids: OidTable)
    requires row.None? <==> forall i :: 0 <= i < |rows| ==> Key(rows[i].serial) != Key(Serial(serial))
    requires row.Some? ==> exists i: nat :: FirstRow(rows, serial, i) && rows[i] == row.value
    ensures SerialStatus(rows, serial, oids) == if row.None? then Answered(Unknown) else RowStatus(row.value, oids)
  {
    if row.Some? {
      var i: nat :| FirstRow(rows, serial, i) && rows[i] == row.value;
      LookupIsFind(rows, serial, i);
    }
  }

  /** The status of a row that was found. */
  method StatusOfRow(row: Row, oids: OidTable) returns (r: Reply)
    ensures r == RowStatus(row, oids)
  {
    if TypeOf(row) == 'V' {
      r := Answered(GoodStatus);
    } else if TypeOf(row) == 'R' {
      var u := UnpackRevinfo(row.rev, oids);
      if u.BadTime? {
        return Failed;
      }
      var time := if u.BadReason? then u.time else u.info.time;
      if Denoted(time).None? {
        return Failed;
      }
      r := Answered(if u.BadReason? then RevokedStatus(time, NoReason, None)
                    else RevokedStatus(time, u.info.reason, ExtraOf(u.info)));
    } else {
      r := NoAnswer;
    }
  }

  method MakeOcspResponse(p: Responder, rows: seq<Row>, qs: seq<Request>, oids: OidTable) returns (r: Response)
    ensures r == if qs == [] then MalformedRequest
                 else match AnswerAll(p, rows, qs, oids) { case None => InternalError case Some(s) => Successful(s) }
    ensures r.Successful? ==>
      var asked := Asked(p, rows, qs, oids);
      |r.singles| == |asked| && forall k :: 0 <= k < |asked| ==> NamesExactly(p, asked[k], r.singles[k])
  {
    if |qs| == 0 {
      return MalformedRequest;
    }
    var bs: seq<Single> := [];
    for i := 0 to |qs|
      invariant AnswerAll(p, rows, qs[..i], oids) == Some(bs)
    {
      var q := qs[i];
      assert qs[..i + 1][..i] == qs[..i];
      if !p.knownMd(q.md) {
        AnswerFails(p, rows, qs, i, oids);
        return InternalError;
      }
      var found, jj := false, 0;
      var id := CertId(q.md, q.issuer, Some(q.serial));
      while jj < |p.cas| && !found
        invariant 0 <= jj <= |p.cas|
        invariant !found ==> FindIssuer(p, q, 0) == FindIssuer(p, q, jj) && id == CertId(q.md, q.issuer, Some(q.serial))
        invariant found ==> jj > 0 && FindIssuer(p, q, 0) == jj - 1 && id == ResponseId(p, q)
        decreases |p.cas| - jj
      {
        if p.hash(q.md, p.cas[jj]) == q.issuer {
          found := true;
          if p.respMd.Some? {
            id := CertId(p.respMd.value, p.hash(p.respMd.value, p.cas[jj]), None);
          }
        }
        jj := jj + 1;
      }
      var row := LookupSerial(rows, q.serial);
      LookupAnswers(rows, q.serial, row, oids);
      if !found || row.None? {
        bs := bs + [Single(id, Unknown)];
        continue;
      }
      var a := StatusOfRow(row.value, oids);
      if a.Failed? {
        AnswerFails(p, rows, qs, i, oids);
        return InternalError;
      }
      if a.Answered? {
        bs := bs + [Single(id, a.status)];
      }
    }
    assert qs[..|qs|] == qs;
    ResponseNamesSerial(p, rows, qs, oids);
    r := Successful(bs);
  }

  // ----- agreement -----

  /** A lookup by number finds only a row of that number, and finds a given one exactly when its
      text is keyed. */
  lemma LookupIsBySerial(d: Db, n: int, oids: OidTable)
    requires Good(d, oids)
    ensures var f := FindSerial(d.rows, Serial(n));
      && (f.Some? ==> HexToBn(d.rows[f.value].serial) == Some(n))
      && (forall i :: 0 <= i < |d.rows| && HexToBn(d.rows[i].serial) == Some(n) ==>
            (f == Some(i) <==> Keyed(d.rows[i].serial)))
  {
    var f := FindSerial(d.rows, Serial(n));
    if f.Some? {
      assert RowOk(d.rows[f.value], oids);
      SameKeySameSerial(d.rows[f.value].serial, n);
    }
    forall i | 0 <= i < |d.rows| && HexToBn(d.rows[i].serial) == Some(n)
      ensures f == Some(i) <==> Keyed(d.rows[i].serial)
    {
      FoundByKey(d.rows, i, Serial(n));
    }
  }

  lemma FoundByKey(rows: seq<Row>, i: nat, s: string)
    requires SerialsDistinct(rows) && i < |rows|
    ensures FindSerial(rows, s) == Some(i) <==> Key(rows[i].serial) == Key(s)
  {
  }

  lemma SameKeySameSerial(s: string, n: int)
    requires SerialSyntax(s) && Key(s) == Key(Serial(n))
    ensures HexToBn(s) == Some(n)
  {
    SerialHasSyntax(n);
    SerialSpells(n);
    EqualKeysEqualValues(s, Serial(n));
  }

  /** The CRL entry and the OCSP answer of one readable revoked row carry the same data. */
  ghost predicate SameRevocation(s: Status, e: Entry) {
    && s.RevokedStatus? && s.time == e.date
    && e.extensions == (if s.reason == NoReason then [] else [ReasonCode(s.reason)])
                     + (if s.extension.None? then [] else [s.extension.value])
  }

  lemma SameData(info: Revocation)
    requires WellShaped(info)
    ensures SameRevocation(RevokedStatus(info.time, info.reason, ExtraOf(info)), Entry(info.time, ExtensionsOf(info)))
  {
  }

  lemma RowAgrees(r: Row, n: int, oids: OidTable)
    requires IsRevoked(r) && EntryOf(r.rev, oids).Some? && HexToBn(r.serial) == Some(n)
    ensures ListRow(r, oids) == Some(Listed(n, EntryOf(r.rev, oids).value))
    ensures RowStatus(r, oids).Answered? && SameRevocation(RowStatus(r, oids).status, EntryOf(r.rev, oids).value)
  {
    UnpackedShape(r.rev, oids);
    UtcOnCalendar(Parts(r.rev).0);
    SameData(Unpack(r.rev, oids).info);
  }

  /** What a certificate's row says, independently of either publication. */
  ghost predicate RowWith(d: Db, n: int, t: char) {
    exists i :: 0 <= i < |d.rows| && HexToBn(d.rows[i].serial) == Some(n) && TypeOf(d.rows[i]) == t
  }

  ghost predicate HasRow(d: Db, n: int) {
    exists i :: 0 <= i < |d.rows| && HexToBn(d.rows[i].serial) == Some(n)
  }

  /** For this serial number: the responder says revoked exactly when the CRL lists it, with
      the same time, reason and hold or invalidity data; good exactly for valid rows; unknown
      exactly for serials without a row; and any other row, such as an expired one, gets no
      answer at all (section 2.2 of RFC 6960). */
  ghost predicate Agrees(d: Db, n: int, crl: multiset<Listed>, oids: OidTable) {
    var a := SerialStatus(d.rows, n, oids);
    && !a.Failed?
    && (a.Answered? && a.status.RevokedStatus? <==> exists e :: e in crl && e.serial == n)
    && (forall e :: e in crl && e.serial == n ==> a.Answered? && SameRevocation(a.status, e.entry))
    && (a == Answered(GoodStatus) <==> RowWith(d, n, 'V'))
    && (a == Answered(Unknown) <==> !HasRow(d, n))
    && (a.NoAnswer? <==> HasRow(d, n) && !RowWith(d, n, 'V') && !RowWith(d, n, 'R'))
  }

  /** Row `i` has a row that its number is looked up by, valid or revoked whenever row `i` is,
      and then with the same data. */
  ghost predicate Represented(d: Db, i: nat, oids: OidTable)
    requires i < |d.rows| && HexToBn(d.rows[i].serial).Some?
  {
    match FindSerial(d.rows, Serial(HexToBn(d.rows[i].serial).value))
    case None => false
    case Some(k) =>
      && (IsValid(d.rows[i]) ==> IsValid(d.rows[k]))
      && (IsRevoked(d.rows[i]) ==> IsRevoked(d.rows[k]) && EntryOf(d.rows[i].rev, oids) == EntryOf(d.rows[k].rev, oids))
  }

  ghost predicate Numbered(d: Db) {
    forall i :: 0 <= i < |d.rows| ==> HexToBn(d.rows[i].serial).Some?
  }

  ghost predicate Representative(d: Db, oids: OidTable) {
    Numbered(d) && forall i :: 0 <= i < |d.rows| ==> Represented(d, i, oids)
  }

  ghost predicate KeyedRows(rows: seq<Row>) {
    forall i :: 0 <= i < |rows| ==> Keyed(rows[i].serial)
  }

  ghost predicate NumbersDistinct(rows: seq<Row>) {
    forall i, j :: 0 <= i < j < |rows| ==> HexToBn(rows[i].serial) != HexToBn(rows[j].serial)
  }

  lemma GoodIsNumbered(d: Db, oids: OidTable)
    requires Good(d, oids)
    ensures Numbered(d)
  {
    forall i | 0 <= i < |d.rows| ensures HexToBn(d.rows[i].serial).Some? {
      assert RowOk(d.rows[i], oids);
      EqualKeysEqualValues(d.rows[i].serial, d.rows[i].serial);
    }
  }

  /** The CRL of a good index can always be made. */
  lemma GoodIndexHasCrl(d: Db, oids: OidTable)
    requires Good(d, oids)
    ensures ListRows(d.rows, oids).Some?
  {
    GoodIsNumbered(d, oids);
    forall i | 0 <= i < |d.rows| && IsRevoked(d.rows[i]) ensures ListRow(d.rows[i], oids).Some? {
      assert RowOk(d.rows[i], oids);
    }
    ListReadable(d.rows, oids);
  }

  /** The entries of the CRL of a good index. */
  ghost function CrlOf(d: Db, oids: OidTable): multiset<Listed>
    requires Good(d, oids)
  {
    GoodIndexHasCrl(d, oids);
    multiset(ListRows(d.rows, oids).value)
  }

  /** The CRL lists exactly the revoked rows. */
  lemma CrlExact(d: Db, e: Listed, oids: OidTable)
    requires Good(d, oids)
    ensures e in CrlOf(d, oids) <==>
      exists i :: 0 <= i < |d.rows| && IsRevoked(d.rows[i]) && ListRow(d.rows[i], oids) == Some(e)
  {
    GoodIndexHasCrl(d, oids);
    if e in CrlOf(d, oids) { var i := ListedHasRow(d.rows, e, oids); }
    forall i | 0 <= i < |d.rows| && IsRevoked(d.rows[i]) && ListRow(d.rows[i], oids) == Some(e)
      ensures e in CrlOf(d, oids)
    {
      RowIsListed(d.rows, i, oids);
    }
  }

  /** The CRL has an entry for a number exactly when the row it is looked up by is revoked, and
      then that row's entry only. */
  lemma ListedAt(d: Db, n: int, e: Listed, oids: OidTable)
    requires Good(d, oids) && Representative(d, oids)
    ensures var f := FindSerial(d.rows, Serial(n));
      e in CrlOf(d, oids) && e.serial == n <==>
        f.Some? && IsRevoked(d.rows[f.value]) && ListRow(d.rows[f.value], oids) == Some(e)
  {
    CrlExact(d, e, oids);
    var f := FindSerial(d.rows, Serial(n));
    if f.Some? {
      assert RowOk(d.rows[f.value], oids);
      SameKeySameSerial(d.rows[f.value].serial, n);
    }
    if e in CrlOf(d, oids) && e.serial == n {
      var i :| 0 <= i < |d.rows| && IsRevoked(d.rows[i]) && ListRow(d.rows[i], oids) == Some(e);
      SameListing(d, i, n, e, oids);
    }
  }

  lemma SameListing(d: Db, i: nat, n: int, e: Listed, oids: OidTable)
    requires i < |d.rows| && IsRevoked(d.rows[i]) && ListRow(d.rows[i], oids) == Some(e) && e.serial == n
    requires Representative(d, oids)
    requires var f := FindSerial(d.rows, Serial(n)); f.Some? ==> HexToBn(d.rows[f.value].serial) == Some(n)
    ensures var f := FindSerial(d.rows, Serial(n));
      f.Some? && IsRevoked(d.rows[f.value]) && ListRow(d.rows[f.value], oids) == Some(e)
  {
    assert Represented(d, i, oids);
  }

  lemma RowsAt(d: Db, n: int, oids: OidTable)
    requires Good(d, oids) && Representative(d, oids)
    ensures var f := FindSerial(d.rows, Serial(n));
      && (HasRow(d, n) <==> f.Some?)
      && (RowWith(d, n, 'V') <==> f.Some? && IsValid(d.rows[f.value]))
      && (RowWith(d, n, 'R') <==> f.Some? && IsRevoked(d.rows[f.value]))
  {
    LookupIsBySerial(d, n, oids);
    forall i | 0 <= i < |d.rows| && HexToBn(d.rows[i].serial) == Some(n) ensures Represented(d, i, oids) {
    }
  }

  lemma RepresentedAgrees(d: Db, n: int, oids: OidTable)
    requires Good(d, oids) && Representative(d, oids)
    ensures Agrees(d, n, CrlOf(d, oids), oids)
  {
    RowsAt(d, n, oids);
    LookupIsBySerial(d, n, oids);
    forall e: Listed ensures e in CrlOf(d, oids) && e.serial == n <==>
        (var f := FindSerial(d.rows, Serial(n));
         f.Some? && IsRevoked(d.rows[f.value]) && ListRow(d.rows[f.value], oids) == Some(e))
    {
      ListedAt(d, n, e, oids);
    }
    var f := FindSerial(d.rows, Serial(n));
    if f.Some? {
      assert RowOk(d.rows[f.value], oids);
      if IsRevoked(d.rows[f.value]) {
        RowAgrees(d.rows[f.value], n, oids);
        assert Listed(n, EntryOf(d.rows[f.value].rev, oids).value) in CrlOf(d, oids);
      }
    }
  }

  /** Two revoked rows of one number agree when the responder's answer agrees with the CRL. */
  lemma AgreeingEntries(d: Db, i: nat, k: nat, n: int, oids: OidTable)
    requires Good(d, oids) && i < |d.rows| && k < |d.rows| && IsRevoked(d.rows[i]) && IsRevoked(d.rows[k])
    requires HexToBn(d.rows[i].serial) == Some(n) && HexToBn(d.rows[k].serial) == Some(n)
    requires var a := RowStatus(d.rows[k], oids);
      forall e :: e in CrlOf(d, oids) && e.serial == n ==> a.Answered? && SameRevocation(a.status, e.entry)
    ensures EntryOf(d.rows[i].rev, oids) == EntryOf(d.rows[k].rev, oids)
  {
    assert RowOk(d.rows[i], oids) && RowOk(d.rows[k], oids);
    RowAgrees(d.rows[k], n, oids);
    var e := ListRow(d.rows[i], oids).value;
    CrlExact(d, e, oids);
    assert SameRevocation(RowStatus(d.rows[k], oids).status, e.entry);
  }

  lemma RevokedIsListed(d: Db, i: nat, n: int, oids: OidTable)
    requires Good(d, oids) && i < |d.rows| && HexToBn(d.rows[i].serial) == Some(n) && IsRevoked(d.rows[i])
    ensures exists e :: e in CrlOf(d, oids) && e.serial == n
  {
    assert RowOk(d.rows[i], oids);
    var e := ListRow(d.rows[i], oids).value;
    CrlExact(d, e, oids);
    assert e in CrlOf(d, oids) && e.serial == n;
  }

  lemma AgreedValid(d: Db, i: nat, n: int, oids: OidTable)
    requires i < |d.rows| && HexToBn(d.rows[i].serial) == Some(n)
    requires SerialStatus(d.rows, n, oids) == Answered(Unknown) <==> !HasRow(d, n)
    requires SerialStatus(d.rows, n, oids) == Answered(GoodStatus) <==> RowWith(d, n, 'V')
    ensures var f := FindSerial(d.rows, Serial(n)); f.Some? && (IsValid(d.rows[i]) ==> IsValid(d.rows[f.value]))
  {
    assert HasRow(d, n);
    if IsValid(d.rows[i]) { assert RowWith(d, n, 'V'); }
  }

  lemma RevokedAnswer(d: Db, n: int, oids: OidTable)
    requires var a := SerialStatus(d.rows, n, oids); a.Answered? && a.status.RevokedStatus?
    ensures var f := FindSerial(d.rows, Serial(n)); f.Some? && IsRevoked(d.rows[f.value])
  {
  }

  lemma AgreesRepresents(d: Db, i: nat, oids: OidTable)
    requires Good(d, oids) && i < |d.rows| && HexToBn(d.rows[i].serial).Some?
    requires Agrees(d, HexToBn(d.rows[i].serial).value, CrlOf(d, oids), oids)
    ensures Represented(d, i, oids)
  {
    var n := HexToBn(d.rows[i].serial).value;
    AgreedValid(d, i, n, oids);
    var k := FindSerial(d.rows, Serial(n)).value;
    assert RowOk(d.rows[k], oids);
    SameKeySameSerial(d.rows[k].serial, n);
    if IsRevoked(d.rows[i]) {
      RevokedIsListed(d, i, n, oids);
      RevokedAnswer(d, n, oids);
      AgreeingEntries(d, i, k, n, oids);
    }
  }

  /** The responder and the CRL of a good index agree about every serial number if and only if
      every row is represented. */
  lemma OcspAgreesWithCrl(d: Db, oids: OidTable)
    requires Good(d, oids)
    ensures (forall n :: Agrees(d, n, CrlOf(d, oids), oids)) <==> Representative(d, oids)
  {
    GoodIsNumbered(d, oids);
    if Representative(d, oids) {
      forall n ensures Agrees(d, n, CrlOf(d, oids), oids) { RepresentedAgrees(d, n, oids); }
    } else {
      var i :| 0 <= i < |d.rows| && !Represented(d, i, oids);
      if Agrees(d, HexToBn(d.rows[i].serial).value, CrlOf(d, oids), oids) { AgreesRepresents(d, i, oids); }
    }
  }

  /** Keyed texts, as the program writes them, are enough; when no number has two rows they are
      necessary too. */
  lemma KeyedExactly(d: Db, oids: OidTable)
    requires Good(d, oids)
    ensures KeyedRows(d.rows) ==> NumbersDistinct(d.rows)
    ensures NumbersDistinct(d.rows) ==> (Representative(d, oids) <==> KeyedRows(d.rows))
  {
    GoodIsNumbered(d, oids);
    forall i | 0 <= i < |d.rows|
      ensures Keyed(d.rows[i].serial) ==> Represented(d, i, oids)
      ensures NumbersDistinct(d.rows) && Represented(d, i, oids) ==> Keyed(d.rows[i].serial)
    {
      KeyedRow(d, i, HexToBn(d.rows[i].serial).value, oids);
    }
  }

  lemma KeyedRow(d: Db, i: nat, n: int, oids: OidTable)
    requires Good(d, oids) && i < |d.rows| && HexToBn(d.rows[i].serial) == Some(n)
    ensures Keyed(d.rows[i].serial) ==> Represented(d, i, oids)
    ensures NumbersDistinct(d.rows) && Represented(d, i, oids) ==> Keyed(d.rows[i].serial)
  {
    var f := FindSerial(d.rows, Serial(n));
    FoundByKey(d.rows, i, Serial(n));
    if NumbersDistinct(d.rows) && f.Some? {
      assert RowOk(d.rows[f.value], oids);
      SameKeySameSerial(d.rows[f.value].serial, n);
      OneRow(d.rows, i, f.value);
    }
  }

  lemma OneRow(rows: seq<Row>, i: nat, k: nat)
    requires NumbersDistinct(rows) && i < |rows| && k < |rows| && HexToBn(rows[i].serial) == HexToBn(rows[k].serial)
    ensures i == k
  {
  }

  /** A revoked row of any good index is on the CRL by its number, and the responder does not know
      that number exactly when no row of it is keyed. */
  lemma UnkeyedIsMissed(d: Db, i: nat, n: int, oids: OidTable)
    requires Good(d, oids) && i < |d.rows| && IsRevoked(d.rows[i]) && HexToBn(d.rows[i].serial) == Some(n)
    ensures exists e :: e in CrlOf(d, oids) && e.serial == n
    ensures SerialStatus(d.rows, n, oids) == Answered(Unknown) <==> NoneKeyed(d.rows, n)
  {
    RevokedIsListed(d, i, n, oids);
    KnownExactly(d, n, oids);
    UnknownExactly(d.rows, n, oids);
  }

  lemma UnknownExactly(rows: seq<Row>, n: int, oids: OidTable)
    ensures SerialStatus(rows, n, oids) == Answered(Unknown) <==> FindSerial(rows, Serial(n)).None?
  {
  }

  ghost predicate NoneKeyed(rows: seq<Row>, n: int) {
    forall i :: 0 <= i < |rows| && HexToBn(rows[i].serial) == Some(n) ==> !Keyed(rows[i].serial)
  }

  lemma KnownExactly(d: Db, n: int, oids: OidTable)
    requires Good(d, oids)
    ensures FindSerial(d.rows, Serial(n)).None? <==> NoneKeyed(d.rows, n)
  {
    var f := FindSerial(d.rows, Serial(n));
    if f.Some? {
      assert RowOk(d.rows[f.value], oids);
      SameKeySameSerial(d.rows[f.value].serial, n);
    }
  }

  lemma LowerCaseRow(exp: string, rev: string, oids: OidTable)
    requires ParseTime(exp).Some? && EntryOf(rev, oids).Some?
    ensures var d := Db([Row("R", exp, rev, "0a", "unknown", "/CN=a")], {}, true);
      && Good(d, oids)
      && (exists e :: e in CrlOf(d, oids) && e.serial == 10)
      && SerialStatus(d.rows, 10, oids) == Answered(Unknown)
  {
    var d := Db([Row("R", exp, rev, "0a", "unknown", "/CN=a")], {}, true);
    LowerCaseText();
    assert ValidAt(d.rows) == {};
    UnkeyedIsMissed(d, 0, 10, oids);
  }

  lemma LowerCaseText()
    ensures SerialSyntax("0a") && HexToBn("0a") == Some(10) && !Keyed("0a")
  {
    assert Value("a") == 10 by { assert "a"[..0] == ""; }
    ZeroInFront("a");
    assert ['0'] + "a" == "0a";
    BareText("0a");
    KeyedExact("0a");
    assert !('0' <= "0a"[1] <= '9' || 'A' <= "0a"[1] <= 'F');
  }

  /** A concrete case: serial 10 written in lower case, revoked in 2025. */
  lemma LowerCaseIsMissed(oids: OidTable)
    ensures var r := Row("R", Format(Tm(2049, 12, 31, 23, 59, 59)), Format(Tm(2025, 1, 1, 0, 0, 0)),
                         "0a", "unknown", "/CN=a");
      var d := Db([r], {}, true);
      && Good(d, oids)
      && (exists e :: e in CrlOf(d, oids) && e.serial == 10)
      && SerialStatus(d.rows, 10, oids) == Answered(Unknown)
  {
    PrintedTimeReadsBack(Utc, Tm(2049, 12, 31, 23, 59, 59));
    TimeAloneIsRead(Tm(2025, 1, 1, 0, 0, 0), oids);
    LowerCaseRow(Format(Tm(2049, 12, 31, 23, 59, 59)), Format(Tm(2025, 1, 1, 0, 0, 0)), oids);
  }

  lemma TimeAloneIsRead(now: Date, oids: OidTable)
    requires UtcYear(now.year)
    ensures EntryOf(Format(now), oids).Some?
  {
    RevocationRoundTrip(RevNone, "", now, oids);
    assert Joined(Format(now), None, None) == Format(now);
  }

  /** From a file with keyed texts, the empty one included, the responder and the CRL agree
      about every serial number after every clean run. */
  lemma RunsPublishAgreement(s: State, steps: seq<Step>, oids: OidTable)
    requires Inv(s, oids) && CleanRun(s, steps, oids) && KeyedRows(s.mem.rows) && KeyedRows(OnFile(s, oids))
    ensures var d := Run(s, steps, oids).mem;
      Good(d, oids) && forall n :: Agrees(d, n, CrlOf(d, oids), oids)
  {
    RunsStayLoadable(s, steps, oids);
    forall i | 0 <= i < |steps| ensures StepHas(steps[i], KeyedPair) {
      if steps[i].IssueStep? || steps[i].RevokeStep? { SerialIsKeyed(steps[i].cert.serial); }
    }
    RunKeepsAll(s, steps, oids, KeyedPair);
    var d := Run(s, steps, oids).mem;
    assert KeyedRows(d.rows);
    KeyedExactly(d, oids);
    OcspAgreesWithCrl(d, oids);
  }

  predicate KeyedPair(serial: string, name: string) {
    Keyed(serial)
  }

  /** An answer that names no certificate: one issuer, and a response digest. */
  lemma SerialIsDropped()
    ensures var p := Responder(["ca"], (md: int) => true, (md: int, ca: string) => ca, Some(2));
      ResponseId(p, Request(1, "ca", 7)) == CertId(2, "ca", None)
  {
  }

  // ----- the status query (get_certificate_status) -----

  /** The type of the row a `-status` operand finds; false when there is none or its type is unknown. */
  method GetCertificateStatus(rows: seq<Row>, serial: string) returns (ok: bool, typ: char)
    ensures var f := FindSerial(rows, StatusKey(serial));
      && (f.Some? ==> typ == TypeOf(rows[f.value]))
      && ok == (f.Some? && typ in {'V', 'R', 'E', 'S'})
  {
    var text := serial;
    if |serial| % 2 == 1 {
      text := "0" + text;
    }
    ghost var padded := text;
    for i := 0 to |text|
      invariant |text| == |padded|
      invariant forall j :: 0 <= j < |text| ==> text[j] == if j < i then UpperChar(padded[j]) else padded[j]
    {
      text := text[i := UpperChar(text[i])];
    }
    assert text == StatusKey(serial);
    var f := FindSerial(rows, text);
    if f.None? {
      return false, '\0';
    }
    typ := TypeOf(rows[f.value]);
    ok := typ == 'V' || typ == 'R' || typ == 'E' || typ == 'S';
  }

  lemma {:induction false} FindByKey(rows: seq<Row>, s: string, t: string, from: nat)
    requires Key(s) == Key(t) && from <= |rows|
    ensures FindSerialFrom(rows, s, from) == FindSerialFrom(rows, t, from)
    decreases |rows| - from
  {
    if from < |rows| { FindByKey(rows, s, t, from + 1); }
  }

  /** A query in any letter case and with any leading zeros finds the row that issuing,
      revoking and the responder find for that serial. */
  lemma StatusQueryFinds(rows: seq<Row>, q: string)
    requires AllHex(q)
    ensures FindSerial(rows, StatusKey(q)) == FindSerial(rows, Serial(Value(q)))
  {
    StatusFindsSerial(q);
    FindByKey(rows, StatusKey(q), Serial(Value(q)), 0);
  }

  // ----- from a step to what is published -----

  lemma {:induction false} AppendLookup(rows: seq<Row>, r: Row, s: string, from: nat)
    requires from <= |rows|
    ensures var f := FindSerialFrom(rows, s, from);
      FindSerialFrom(rows + [r], s, from) ==
        if f.Some? then f else if Key(r.serial) == Key(s) then Some(|rows|) else None
    decreases |rows| - from
  {
    if from < |rows| {
      AppendLookup(rows, r, s, from + 1);
    } else {
      assert (rows + [r])[from] == r;
    }
  }

  lemma {:induction false} ReplaceLookup(rows: seq<Row>, i: nat, r: Row, s: string, from: nat)
    requires i < |rows| && r.serial == rows[i].serial && from <= |rows|
    ensures FindSerialFrom(rows[i := r], s, from) == FindSerialFrom(rows, s, from)
    decreases |rows| - from
  {
    if from < |rows| { ReplaceLookup(rows, i, r, s, from + 1); }
  }

  /** Once issued a certificate is good, and no other answer changes. */
  lemma IssuedIsGood(d: Db, c: Cert, a: Answer, n: int, oids: OidTable)
    requires Adds(d, c) && a.Signed?
    ensures var e := Issue(d, c, a).0;
      SerialStatus(e.rows, n, oids) == if n == c.serial then Answered(GoodStatus) else SerialStatus(d.rows, n, oids)
  {
    IssueSucceeds(d, c, a);
    AppendLookup(d.rows, NewRow(c), Serial(n), 0);
    if Key(Serial(c.serial)) == Key(Serial(n)) { SerialInjective(c.serial, n); }
  }

  /** What is said about a certificate revoked with this reason at this time: just that, but
      outside the years 1950 to 2049 nothing, because the whole response fails. */
  function Published(t: RevType, arg: string, now: Date, oids: OidTable): Reply {
    if !UtcYear(now.year) then Failed
    else Answered(RevokedStatus(Stamp(now, 0), RfcReason(t, arg), ExtraOf(Meaning(t, arg, now, oids))))
  }

  lemma MarkedStatus(r: Row, t: RevType, arg: string, now: Date, oids: OidTable)
    requires RevocationText(t, arg, now, oids).Some?
    ensures RowStatus(Mark(r, RevocationText(t, arg, now, oids).value), oids) == Published(t, arg, now, oids)
  {
    RevocationRoundTrip(t, arg, now, oids);
  }

  /** The row that a successful revocation marks, and what becomes of the lookups. */
  lemma RevokedRow(d: Db, i: nat, c: Cert, t: RevType, arg: string, now: Date, oids: OidTable, n: int)
    requires i < |d.rows| && FindSerial(d.rows, Serial(c.serial)) == Some(i)
    requires RevokeAt(d, i, c, t, arg, now, oids).1
    ensures var e := RevokeAt(d, i, c, t, arg, now, oids).0;
      SerialStatus(e.rows, n, oids)
        == if n == c.serial then Published(t, arg, now, oids) else SerialStatus(d.rows, n, oids)
  {
    var text := RevocationText(t, arg, now, oids).value;
    MarkedStatus(d.rows[i], t, arg, now, oids);
    MarkedLookup(d.rows, i, Mark(d.rows[i], text), c.serial, n, oids);
  }

  lemma MarkedLookup(rows: seq<Row>, i: nat, r: Row, serial: int, n: int, oids: OidTable)
    requires i < |rows| && FindSerial(rows, Serial(serial)) == Some(i) && r.serial == rows[i].serial
    ensures SerialStatus(rows[i := r], n, oids)
         == if n == serial then RowStatus(r, oids) else SerialStatus(rows, n, oids)
  {
    ReplaceLookup(rows, i, r, Serial(n), 0);
    if n != serial && FindSerial(rows, Serial(n)) == Some(i) { SerialInjective(serial, n); }
  }

  /** Once revoked, whether it was on file before or not, a certificate is reported revoked
      with the time, the RFC 5280 reason and the argument given, exactly in the years 1950 to
      2049, and no other answer changes. */
  lemma RevokedIsPublished(d: Db, c: Cert, t: RevType, arg: string, now: Date, oids: OidTable, n: int)
    requires Revokes(d, c, t, arg, oids)
    ensures var e := Revoke(d, c, t, arg, now, oids).0;
      SerialStatus(e.rows, n, oids)
        == if n == c.serial then Published(t, arg, now, oids) else SerialStatus(d.rows, n, oids)
  {
    AddsExact(d, c);
    RevokeSucceeds(d, c, t, arg, now, oids);
    match FindSerial(d.rows, Serial(c.serial))
    case Some(i) => RevokedRow(d, i, c, t, arg, now, oids, n);
    case None =>
      var e := Insert(d, NewRow(c)).value;
      AppendLookup(d.rows, NewRow(c), Serial(c.serial), 0);
      AppendLookup(d.rows, NewRow(c), Serial(n), 0);
      RevokedRow(e, |d.rows|, c, t, arg, now, oids, n);
      if Key(Serial(c.serial)) == Key(Serial(n)) { SerialInjective(c.serial, n); }
  }

  /** Serials are listed by their size without the sign, a positive one before its negative. */
  lemma SerialLeExact(m: int, n: int)
    ensures m >= 0 && n >= 0 ==> (SerialLe(m, n) <==> m <= n)
    ensures m < 0 && n < 0 ==> (SerialLe(m, n) <==> n <= m)
    ensures m >= 0 && n < 0 ==> (SerialLe(m, n) <==> m <= -n)
    ensures SerialLe(m, n) && SerialLe(n, m) ==> m == n
    ensures SerialLe(m, n) || SerialLe(n, m)
  {
  }
}
