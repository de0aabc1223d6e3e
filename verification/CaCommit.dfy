/**
 Serial numbers across runs of the `ca` program: the certify loop, the files it
 writes, and the order of the renames that commit them, one rename at a time, so
 that a run may stop or fail anywhere in between.
 */
module CaCommit {
  import opened Wrappers
  import opened Calendar
  import opened Asn1Time
  import opened RevInfo
  import opened SerialText
  import opened CaDb
  import opened CaRuns

  // ----- the certify loop -----

  /** A request as the loop sees it: unusable, with a signature that does not verify, or
      a certificate to be issued under the current serial. */
  datatype Req = BadRequest | BadSignature | Req(subject: string, notAfter: string, answer: Answer)

  /** The index, the next serial, the serials issued, and whether the loop came to its end. */
  datatype Certified = Certified(db: Db, serial: int, certs: seq<int>, ok: bool)

  function CertifyOne(p: Certified, q: Req): Certified {
    if !p.ok then p
    else if q.BadRequest? then p.(ok := false)
    else if q.BadSignature? then p
    else
      var (e, j) := Issue(p.db, Cert(p.serial, q.subject, q.notAfter), q.answer);
      if j < 0 then p.(ok := false)
      else if j == 0 then p
      else Certified(e, p.serial + 1, p.certs + [p.serial], true)
  }

  function Certify(d: Db, serial: int, reqs: seq<Req>): Certified {
    if reqs == [] then Certified(d, serial, [], true)
    else CertifyOne(Certify(d, serial, reqs[..|reqs| - 1]), reqs[|reqs| - 1])
  }

  /** The loop of `ca_main`: stops at the first error, skips what the operator declines. */
  method CertifyAll(db: Index, serial0: int, reqs: seq<Req>) returns (serial: int, certs: seq<int>, ok: bool)
    modifies db
    ensures Certified(db.View(), serial, certs, ok) == old(Certify(db.View(), serial0, reqs))
  {
    serial, certs, ok := serial0, [], true;
    for i := 0 to |reqs|
      invariant ok && Certified(db.View(), serial, certs, ok) == old(Certify(db.View(), serial0, reqs[..i]))
    {
      ghost var p := Certified(db.View(), serial, certs, ok);
      assert reqs[..i + 1][..i] == reqs[..i];
      StopsForGood(old(db.View()), serial0, reqs, i + 1);
      if reqs[i].BadRequest? {
        ok := false;
        return;
      }
      if reqs[i].BadSignature? {
        continue;
      }
      var j := db.IssueCertificate(Cert(serial, reqs[i].subject, reqs[i].notAfter), reqs[i].answer);
      if j < 0 {
        ok := false;
        return;
      }
      if j > 0 {
        certs := certs + [serial];
        serial := serial + 1;
      }
      assert Certified(db.View(), serial, certs, ok) == CertifyOne(p, reqs[i]);
    }
    assert reqs[..|reqs|] == reqs;
  }

  lemma {:induction false} StopsForGood(d: Db, serial: int, reqs: seq<Req>, k: nat)
    requires k <= |reqs|
    ensures !Certify(d, serial, reqs[..k]).ok ==> Certify(d, serial, reqs) == Certify(d, serial, reqs[..k])
    decreases |reqs| - k
  {
    if k < |reqs| {
      assert reqs[..k + 1][..k] == reqs[..k];
      StopsForGood(d, serial, reqs, k + 1);
    } else {
      assert reqs[..k] == reqs;
    }
  }

  /** Certificates, new rows and the advance of the serial are equal in number, and the
      serials issued are consecutive. */
  ghost predicate Consecutive(d: Db, serial: int, r: Certified) {
    && r.serial == serial + |r.certs|
    && |r.db.rows| == |d.rows| + |r.certs| && d.rows <= r.db.rows
    && (forall i :: 0 <= i < |r.certs| ==> r.certs[i] == serial + i)
    && (forall i :: |d.rows| <= i < |r.db.rows| ==> r.db.rows[i].serial == Serial(serial + i - |d.rows|))
  }

  lemma OneMore(d: Db, serial: int, p: Certified, row: Row, e: Db)
    requires Consecutive(d, serial, p) && row.serial == Serial(p.serial) && e.rows == p.db.rows + [row]
    ensures Consecutive(d, serial, Certified(e, p.serial + 1, p.certs + [p.serial], true))
  {
  }

  lemma {:induction false} SerialsAreConsecutive(d: Db, serial: int, reqs: seq<Req>)
    ensures Consecutive(d, serial, Certify(d, serial, reqs))
  {
    if reqs != [] {
      SerialsAreConsecutive(d, serial, reqs[..|reqs| - 1]);
      var p, q := Certify(d, serial, reqs[..|reqs| - 1]), reqs[|reqs| - 1];
      if p.ok && q.Req? {
        var c := Cert(p.serial, q.subject, q.notAfter);
        if Issue(p.db, c, q.answer).1 > 0 { OneMore(d, serial, p, NewRow(c), Issue(p.db, c, q.answer).0); }
      }
    }
  }

  // ----- no serial is used twice -----

  /** Every serial in the index is below `n`. */
  ghost predicate Below(rows: seq<Row>, n: int) {
    forall i :: 0 <= i < |rows| ==>
      SerialSyntax(rows[i].serial) && HexToBn(rows[i].serial).Some? && HexToBn(rows[i].serial).value < n
  }

  lemma FreshSerial(rows: seq<Row>, n: int)
    requires Below(rows, n)
    ensures FindSerial(rows, Serial(n)).None?
  {
    var f := FindSerial(rows, Serial(n));
    if f.Some? {
      SerialHasSyntax(n);
      SerialSpells(n);
      EqualKeysEqualValues(rows[f.value].serial, Serial(n));
      assert false;
    }
  }

  lemma BelowAppend(rows: seq<Row>, r: Row, n: int, m: int)
    requires Below(rows, n) && r.serial == Serial(m) && m < n
    ensures Below(rows + [r], n)
  {
    SerialHasSyntax(m);
    SerialSpells(m);
  }

  /** When the serial file is ahead of the index, the loop keeps it ahead, and no request
      it looks at is ever refused because its serial has already been issued. */
  lemma {:induction false} CertifyStaysAhead(d: Db, serial: int, reqs: seq<Req>)
    requires Below(d.rows, serial)
    ensures var r := Certify(d, serial, reqs);
      Below(r.db.rows, r.serial) && FindSerial(r.db.rows, Serial(r.serial)).None?
  {
    if reqs != [] {
      CertifyStaysAhead(d, serial, reqs[..|reqs| - 1]);
      OneStaysAhead(Certify(d, serial, reqs[..|reqs| - 1]), reqs[|reqs| - 1]);
    }
    FreshSerial(Certify(d, serial, reqs).db.rows, Certify(d, serial, reqs).serial);
  }

  lemma OneStaysAhead(p: Certified, q: Req)
    requires Below(p.db.rows, p.serial)
    ensures Below(CertifyOne(p, q).db.rows, CertifyOne(p, q).serial)
  {
    if CertifyOne(p, q).serial != p.serial {
      BelowUp(p.db.rows, p.serial, p.serial + 1);
      BelowAppend(p.db.rows, NewRow(Cert(p.serial, q.subject, q.notAfter)), p.serial + 1, p.serial);
    }
  }

  // ----- the files -----

  /** The serial file, the index file and its attribute file, with the new and old versions beside them. */
  datatype Disk = Disk(serial: Option<int>, serialNew: Option<int>, serialOld: Option<int>,
                       index: Option<seq<Row>>, indexNew: Option<seq<Row>>, indexOld: Option<seq<Row>>,
                       attr: Option<bool>, attrNew: Option<bool>, attrOld: Option<bool>)

  /** Away, in: a file becomes the old version, the new one takes its place. Back, out: the reverse. */
  datatype Op =
    | SaveSerial(n: int) | SaveIndex(rows: seq<Row>) | SaveAttr(unique: bool)
    | SerialAway | SerialIn | SerialBack
    | IndexAway | IndexIn | IndexOut | IndexBack
    | AttrAway | AttrIn | AttrBack

  /** One write or rename; a file that is not there is not moved. */
  function Exec(d: Disk, op: Op): Disk {
    match op
    case SaveSerial(n) => d.(serialNew := Some(n))
    case SaveIndex(rows) => d.(indexNew := Some(rows))
    case SaveAttr(unique) => d.(attrNew := Some(unique))
    case SerialAway => if d.serial.None? then d else d.(serial := None, serialOld := d.serial)
    case SerialIn => if d.serialNew.None? then d else d.(serial := d.serialNew, serialNew := None)
    case SerialBack => if d.serialOld.None? then d else d.(serial := d.serialOld, serialOld := None)
    case IndexAway => if d.index.None? then d else d.(index := None, indexOld := d.index)
    case IndexIn => if d.indexNew.None? then d else d.(index := d.indexNew, indexNew := None)
    case IndexOut => if d.index.None? then d else d.(index := None, indexNew := d.index)
    case IndexBack => if d.indexOld.None? then d else d.(index := d.indexOld, indexOld := None)
    case AttrAway => if d.attr.None? then d else d.(attr := None, attrOld := d.attr)
    case AttrIn => if d.attrNew.None? then d else d.(attr := d.attrNew, attrNew := None)
    case AttrBack => if d.attrOld.None? then d else d.(attr := d.attrOld, attrOld := None)
  }

  function AfterOps(d: Disk, ops: seq<Op>, k: nat): Disk
    requires k <= |ops|
  {
    if k == 0 then d else Exec(AfterOps(d, ops, k - 1), ops[k - 1])
  }

  /** What `rotate_serial` and `rotate_index` do when the rename after this one fails. */
  function UndoAfter(op: Op): seq<Op> {
    match op
    case SerialAway => [SerialBack]
    case IndexAway => [IndexBack]
    case IndexIn => [IndexOut, IndexBack]
    case AttrAway => [AttrBack, IndexOut, IndexBack]
    case _ => []
  }

  /** A run stops after `k` operations and `undo` of those that undo them. */
  datatype Stop = Stop(k: nat, undo: nat)

  function Min(a: nat, b: nat): nat { if a < b then a else b }

  function Finish(d: Disk, ops: seq<Op>, stop: Stop): Disk {
    var k := Min(stop.k, |ops|);
    var e := AfterOps(d, ops, k);
    if k == 0 then e
    else
      var undo := UndoAfter(ops[k - 1]);
      AfterOps(e, undo, Min(stop.undo, |undo|))
  }

  /** The commit of an issuing run: all new files first, then the serial, then the index. */
  function IssueOps(n: int, rows: seq<Row>, unique: bool): seq<Op> {
    [SaveSerial(n), SaveIndex(rows), SaveAttr(unique), SerialAway, SerialIn, IndexAway, IndexIn, AttrAway, AttrIn]
  }

  /** The commit of a run that only changes the index. */
  function IndexOps(rows: seq<Row>, unique: bool): seq<Op> {
    [SaveIndex(rows), SaveAttr(unique), IndexAway, IndexIn, AttrAway, AttrIn]
  }

  /** A stop of a commit of the index that leaves the new index in place. */
  predicate Lands(stop: Stop) {
    stop.k >= 4 && !(stop.k == 4 && stop.undo >= 1) && !(stop.k == 5 && stop.undo >= 2)
  }

  datatype Run =
    | IssueRun(reqs: seq<Req>, confirmed: bool, stop: Stop)
    | RevokeRun(cert: Cert, revType: RevType, arg: string, now: Date, stop: Stop)
    | ExpireRun(instant: Date, stop: Stop)

  /** The index as a run loads it. */
  ghost function Loaded(rows: seq<Row>, unique: bool): Db {
    Db(rows, if unique then ValidAt(rows) else {}, unique)
  }

  /** One run. Without its files, with an index the loader refuses, or when it ends before
      the commit, nothing is written. */
  ghost function Effect(d: Disk, run: Run, unique: bool, oids: OidTable): Disk {
    if d.index.None? || !Loadable(d.index.value, unique, oids) then d else
      var db := Loaded(d.index.value, unique);
      match run
      case IssueRun(reqs, confirmed, stop) =>
        if d.serial.None? then d else
          var r := Certify(db, d.serial.value, reqs);
          if !r.ok || r.certs == [] || !confirmed then d else Finish(d, IssueOps(r.serial, r.db.rows, unique), stop)
      case RevokeRun(c, t, arg, now, stop) =>
        var (e, ok) := Revoke(db, c, t, arg, now, oids);
        if !ok then d else Finish(d, IndexOps(e.rows, unique), stop)
      case ExpireRun(now, stop) =>
        var (rows, cnt) := ExpireRows(d.index.value, now);
        if cnt <= 0 then d else Finish(d, IndexOps(rows, unique), stop)
  }

  ghost function Effects(d: Disk, runs: seq<Run>, unique: bool, oids: OidTable): Disk {
    if runs == [] then d else Effect(Effects(d, runs[..|runs| - 1], unique, oids), runs[|runs| - 1], unique, oids)
  }

  /** The next serial on disk exceeds every serial in the index on disk. */
  ghost predicate Ahead(d: Disk) {
    d.serial.Some? && d.index.Some? ==> Below(d.index.value, d.serial.value)
  }

  lemma BelowUp(rows: seq<Row>, m: int, n: int)
    requires Below(rows, m) && m <= n
    ensures Below(rows, n)
  {
  }

  /** Undoing the index: it stays, is away, or is the old one again. */
  lemma UndoIndex(e: Disk, op: Op, undo: nat)
    requires op.IndexAway? || op.IndexIn? || op.AttrAway?
    requires e.indexOld.Some? && (op.IndexAway? <==> e.index.None?)
    ensures var f := AfterOps(e, UndoAfter(op), Min(undo, |UndoAfter(op)|));
      && f.serial == e.serial
      && if undo == 0 || (op.AttrAway? && undo == 1) then f.index == e.index
         else f.index == None || f.index == e.indexOld
  {
    var ops := UndoAfter(op);
    var f1 := Exec(e, ops[0]);
    assert AfterOps(e, ops, 0) == e;
    assert AfterOps(e, ops, 1) == f1;
    if |ops| > 1 { assert AfterOps(e, ops, 2) == Exec(f1, ops[1]); }
    if |ops| > 2 { assert AfterOps(e, ops, 3) == Exec(Exec(f1, ops[1]), ops[2]); }
  }

  lemma UndoSerial(e: Disk, undo: nat)
    requires e.serial.None? && e.serialOld.Some?
    ensures var f := AfterOps(e, [SerialBack], Min(undo, 1));
      f.index == e.index && f.serial == if undo == 0 then None else e.serialOld
  {
    assert AfterOps(e, [SerialBack], 0) == e;
    assert AfterOps(e, [SerialBack], 1) == Exec(e, SerialBack);
  }

  lemma IssueChain(d: Disk, n: int, rows: seq<Row>, unique: bool, k: nat)
    requires d.serial.Some? && d.index.Some? && k <= 9
    ensures var e := AfterOps(d, IssueOps(n, rows, unique), k);
      && e.serial == (if k < 4 then d.serial else if k == 4 then None else Some(n))
      && e.index == (if k < 6 then d.index else if k == 6 then None else Some(rows))
      && (k >= 4 ==> e.serialOld == d.serial) && (k >= 6 ==> e.indexOld == d.index)
  {
    var ops := IssueOps(n, rows, unique);
    var d3 := d.(serialNew := Some(n), indexNew := Some(rows), attrNew := Some(unique));
    var d5 := d3.(serial := Some(n), serialNew := None, serialOld := d.serial);
    var d7 := d5.(index := Some(rows), indexNew := None, indexOld := d.index);
    assert AfterOps(d, ops, 1) == d.(serialNew := Some(n));
    assert AfterOps(d, ops, 2) == d.(serialNew := Some(n), indexNew := Some(rows));
    assert AfterOps(d, ops, 3) == d3;
    assert AfterOps(d, ops, 4) == d3.(serial := None, serialOld := d.serial);
    assert AfterOps(d, ops, 5) == d5;
    assert AfterOps(d, ops, 6) == d5.(index := None, indexOld := d.index);
    assert AfterOps(d, ops, 7) == d7;
    assert AfterOps(d, ops, 8) == Exec(d7, AttrAway);
    assert AfterOps(d, ops, 9) == Exec(Exec(d7, AttrAway), AttrIn);
  }

  /** At every point of the commit, also between the two rotations, after a failed rename and while
      it is undone, the serial on disk is ahead of the index on disk. */
  lemma IssueCommitStaysAhead(d: Disk, n: int, rows: seq<Row>, unique: bool, stop: Stop)
    requires d.serial.Some? && d.index.Some? && Below(d.index.value, d.serial.value)
    requires d.serial.value <= n && Below(rows, n)
    ensures Ahead(Finish(d, IssueOps(n, rows, unique), stop))
  {
    var ops := IssueOps(n, rows, unique);
    var k := Min(stop.k, |ops|);
    var e := AfterOps(d, ops, k);
    BelowUp(d.index.value, d.serial.value, n);
    IssueChain(d, n, rows, unique, k);
    if k == 4 {
      UndoSerial(e, stop.undo);
    } else if 6 <= k <= 8 {
      UndoIndex(e, ops[k - 1], stop.undo);
    }
  }

  lemma IndexChain(d: Disk, rows: seq<Row>, unique: bool, k: nat)
    requires d.index.Some? && k <= 6
    ensures var e := AfterOps(d, IndexOps(rows, unique), k);
      && e.serial == d.serial
      && e.index == (if k < 3 then d.index else if k == 3 then None else Some(rows))
      && (k >= 3 ==> e.indexOld == d.index)
  {
    var ops := IndexOps(rows, unique);
    var d2 := d.(indexNew := Some(rows), attrNew := Some(unique));
    var d4 := d2.(index := Some(rows), indexNew := None, indexOld := d.index);
    assert AfterOps(d, ops, 1) == d.(indexNew := Some(rows));
    assert AfterOps(d, ops, 2) == d2;
    assert AfterOps(d, ops, 3) == d2.(index := None, indexOld := d.index);
    assert AfterOps(d, ops, 4) == d4;
    assert AfterOps(d, ops, 5) == Exec(d4, AttrAway);
    assert AfterOps(d, ops, 6) == Exec(Exec(d4, AttrAway), AttrIn);
  }

  /** The index after a stop: the new one exactly when the stop leaves it in place. */
  lemma IndexAfterStop(d: Disk, rows: seq<Row>, unique: bool, stop: Stop)
    requires d.index.Some?
    ensures var e := Finish(d, IndexOps(rows, unique), stop);
      && e.serial == d.serial
      && if Lands(stop) then e.index == Some(rows) else e.index == None || e.index == d.index
  {
    var ops := IndexOps(rows, unique);
    var k := Min(stop.k, |ops|);
    IndexChain(d, rows, unique, k);
    if 3 <= k <= 5 { UndoIndex(AfterOps(d, ops, k), ops[k - 1], stop.undo); }
  }

  /** A commit of the index alone keeps the serial ahead exactly when it stops without the new
      index in place, or its rows are below the serial. */
  lemma IndexCommitExact(d: Disk, rows: seq<Row>, unique: bool, stop: Stop)
    requires Ahead(d) && d.index.Some?
    ensures Ahead(Finish(d, IndexOps(rows, unique), stop)) <==>
      !Lands(stop) || (d.serial.Some? ==> Below(rows, d.serial.value))
  {
    IndexAfterStop(d, rows, unique, stop);
  }

  /** Revoking changes no serial and adds at most the one of its certificate. */
  lemma RevokeBelow(d: Db, c: Cert, t: RevType, arg: string, now: Date, oids: OidTable, n: int)
    requires Below(d.rows, n)
    ensures Below(Revoke(d, c, t, arg, now, oids).0.rows, n) <==> (Adds(d, c) ==> c.serial < n)
  {
    AddsExact(d, c);
    match FindSerial(d.rows, Serial(c.serial))
    case Some(i) => RevokeAtBelow(d, i, c, t, arg, now, oids, n);
    case None =>
      BelowAppendExact(d.rows, NewRow(c), n, c.serial);
      if Adds(d, c) { RevokeAtBelow(Insert(d, NewRow(c)).value, |d.rows|, c, t, arg, now, oids, n); }
  }

  lemma RevokeAtBelow(d: Db, i: nat, c: Cert, t: RevType, arg: string, now: Date, oids: OidTable, n: int)
    requires i < |d.rows|
    ensures Below(RevokeAt(d, i, c, t, arg, now, oids).0.rows, n) <==> Below(d.rows, n)
  {
    RevokeAtIdentity(d, i, c, t, arg, now, oids);
    SameSerialsBelow(d.rows, RevokeAt(d, i, c, t, arg, now, oids).0.rows, n);
  }

  lemma SameSerialsBelow(a: seq<Row>, b: seq<Row>, n: int)
    requires |a| == |b| && SameIdentity(a, b)
    ensures Below(a, n) <==> Below(b, n)
  {
  }

  lemma ExpireBelow(rows: seq<Row>, now: Date, n: int)
    requires Below(rows, n)
    ensures Below(ExpireRows(rows, now).0, n)
  {
    ExpireShape(rows, now);
  }

  /** The run brings a certificate into the index on disk that was not there. */
  ghost predicate BringsIn(d: Disk, run: Run, unique: bool, oids: OidTable) {
    && run.RevokeRun? && d.index.Some? && Loadable(d.index.value, unique, oids)
    && Adds(Loaded(d.index.value, unique), run.cert)
    && (run.revType.RevValid? || Revokes(Loaded(d.index.value, unique), run.cert, run.revType, run.arg, oids))
    && Lands(run.stop)
  }

  /** Such a certificate must carry a serial that has been given out already. */
  ghost predicate Admissible(d: Disk, run: Run, unique: bool, oids: OidTable) {
    BringsIn(d, run, unique, oids) && d.serial.Some? ==> run.cert.serial < d.serial.value
  }

  /** One run keeps the serial file ahead of the index if and only if it is admissible. */
  lemma EffectAheadExact(d: Disk, run: Run, unique: bool, oids: OidTable)
    requires Ahead(d)
    ensures Ahead(Effect(d, run, unique, oids)) <==> Admissible(d, run, unique, oids)
  {
    if d.index.Some? && Loadable(d.index.value, unique, oids) {
      match run
      case IssueRun(reqs, confirmed, stop) => IssueStaysAhead(d, reqs, confirmed, stop, unique, oids);
      case RevokeRun(c, t, arg, now, stop) => RevokeAheadExact(d, c, t, arg, now, stop, unique, oids);
      case ExpireRun(now, stop) => ExpireStaysAhead(d, now, stop, unique, oids);
    }
  }

  lemma IssueStaysAhead(d: Disk, reqs: seq<Req>, confirmed: bool, stop: Stop, unique: bool, oids: OidTable)
    requires Ahead(d) && d.index.Some?
    ensures Ahead(Effect(d, IssueRun(reqs, confirmed, stop), unique, oids))
  {
    if d.serial.Some? {
      var db := Loaded(d.index.value, unique);
      CertifyStaysAhead(db, d.serial.value, reqs);
      SerialsAreConsecutive(db, d.serial.value, reqs);
      var r := Certify(db, d.serial.value, reqs);
      IssueCommitStaysAhead(d, r.serial, r.db.rows, unique, stop);
    }
  }

  lemma ExpireStaysAhead(d: Disk, now: Date, stop: Stop, unique: bool, oids: OidTable)
    requires Ahead(d) && d.index.Some?
    ensures Ahead(Effect(d, ExpireRun(now, stop), unique, oids))
  {
    if d.serial.Some? { ExpireBelow(d.index.value, now, d.serial.value); }
    IndexCommitExact(d, ExpireRows(d.index.value, now).0, unique, stop);
  }

  /** Whatever the reason given, and wherever the run stops: a certificate that comes in keeps
      the serial ahead exactly when its serial is below the one on file. */
  lemma RevokeAheadExact(d: Disk, c: Cert, t: RevType, arg: string, now: Date, stop: Stop, unique: bool, oids: OidTable)
    requires Ahead(d) && d.index.Some? && Loadable(d.index.value, unique, oids)
    ensures var run := RevokeRun(c, t, arg, now, stop);
      Ahead(Effect(d, run, unique, oids)) <==> Admissible(d, run, unique, oids)
  {
    var db := Loaded(d.index.value, unique);
    RevokeSucceeds(db, c, t, arg, now, oids);
    var rows := Revoke(db, c, t, arg, now, oids).0.rows;
    if d.serial.Some? { RevokeBelow(db, c, t, arg, now, oids, d.serial.value); }
    IndexCommitExact(d, rows, unique, stop);
  }

  lemma StepAhead(d: Disk, runs: seq<Run>, i: nat, unique: bool, oids: OidTable)
    requires i < |runs| && Ahead(Effects(d, runs[..i], unique, oids))
    ensures Ahead(Effects(d, runs[..i + 1], unique, oids))
       <==> Admissible(Effects(d, runs[..i], unique, oids), runs[i], unique, oids)
  {
    assert runs[..i + 1][..i] == runs[..i];
    EffectAheadExact(Effects(d, runs[..i], unique, oids), runs[i], unique, oids);
  }

  lemma {:induction false} AheadUpTo(d: Disk, runs: seq<Run>, k: nat, unique: bool, oids: OidTable)
    requires Ahead(d) && k <= |runs|
    requires forall i :: 0 <= i < |runs| ==> Admissible(Effects(d, runs[..i], unique, oids), runs[i], unique, oids)
    ensures Ahead(Effects(d, runs[..k], unique, oids))
    decreases k
  {
    if k > 0 {
      AheadUpTo(d, runs, k - 1, unique, oids);
      StepAhead(d, runs, k - 1, unique, oids);
    }
  }

  /** Over any number of runs, each stopped anywhere, the serial file stays ahead of the
      index; hence in every later issuing run no request meets its own serial in the index. */
  lemma RunsStayAhead(d: Disk, runs: seq<Run>, unique: bool, oids: OidTable)
    requires Ahead(d)
    requires forall i :: 0 <= i < |runs| ==> Admissible(Effects(d, runs[..i], unique, oids), runs[i], unique, oids)
    ensures Ahead(Effects(d, runs, unique, oids))
    ensures var e := Effects(d, runs, unique, oids);
      e.serial.Some? && e.index.Some? ==>
        forall reqs: seq<Req> :: var r := Certify(Loaded(e.index.value, unique), e.serial.value, reqs);
          FindSerial(r.db.rows, Serial(r.serial)).None?
  {
    AheadUpTo(d, runs, |runs|, unique, oids);
    assert runs[..|runs|] == runs;
    var e := Effects(d, runs, unique, oids);
    if e.serial.Some? && e.index.Some? {
      forall reqs: seq<Req> ensures var r := Certify(Loaded(e.index.value, unique), e.serial.value, reqs);
          FindSerial(r.db.rows, Serial(r.serial)).None?
      {
        CertifyStaysAhead(Loaded(e.index.value, unique), e.serial.value, reqs);
      }
    }
  }

  lemma BelowAppendExact(rows: seq<Row>, r: Row, n: int, m: int)
    requires Below(rows, n) && r.serial == Serial(m)
    ensures Below(rows + [r], n) <==> m < n
  {
    SerialSpells(m);
    assert (rows + [r])[|rows|] == r;
    if m < n { BelowAppend(rows, r, n, m); }
  }

  /** The serial file is ahead at every point between the runs if and only if every run was admissible. */
  lemma RunsAheadExact(d: Disk, runs: seq<Run>, unique: bool, oids: OidTable)
    requires Ahead(d)
    ensures (forall i :: 0 <= i <= |runs| ==> Ahead(Effects(d, runs[..i], unique, oids)))
       <==> forall i :: 0 <= i < |runs| ==> Admissible(Effects(d, runs[..i], unique, oids), runs[i], unique, oids)
  {
    if forall i :: 0 <= i <= |runs| ==> Ahead(Effects(d, runs[..i], unique, oids)) {
      forall i | 0 <= i < |runs| ensures Admissible(Effects(d, runs[..i], unique, oids), runs[i], unique, oids) {
        StepAhead(d, runs, i, unique, oids);
      }
    } else if forall i :: 0 <= i < |runs| ==> Admissible(Effects(d, runs[..i], unique, oids), runs[i], unique, oids) {
      forall i | 0 <= i <= |runs| ensures Ahead(Effects(d, runs[..i], unique, oids)) {
        AheadUpTo(d, runs, i, unique, oids);
      }
    }
  }

  // ----- a serial from outside -----

  /** A serial in the index stops the loop: it never gets past it. */
  lemma {:induction false} CertifyStopsAt(d: Db, n: int, reqs: seq<Req>, m: int)
    requires n <= m && FindSerial(d.rows, Serial(m)).Some?
    ensures Certify(d, n, reqs).serial <= m
    decreases |reqs|
  {
    if reqs != [] {
      var p, q := Certify(d, n, reqs[..|reqs| - 1]), reqs[|reqs| - 1];
      CertifyStopsAt(d, n, reqs[..|reqs| - 1], m);
      SerialsAreConsecutive(d, n, reqs[..|reqs| - 1]);
      StaysFound(d.rows, p.db.rows, m);
      OneStopsAt(p, q, m);
    }
  }

  lemma OneStopsAt(p: Certified, q: Req, m: int)
    requires p.serial <= m && FindSerial(p.db.rows, Serial(m)).Some?
    ensures CertifyOne(p, q).serial <= m
  {
  }

  lemma StaysFound(rows: seq<Row>, more: seq<Row>, m: int)
    requires rows <= more && FindSerial(rows, Serial(m)).Some?
    ensures FindSerial(more, Serial(m)).Some?
  {
    var i := FindSerial(rows, Serial(m)).value;
    assert more[i] == rows[i];
  }

  /** A concrete case: with serial 1 next on file, a certificate that already has it is added to
      the empty index. From then on no request is issued: it meets its own serial. */
  lemma ForeignSerialBlocks(exp: string, now: Date, oids: OidTable, reqs: seq<Req>)
    requires ParseTime(exp).Some?
    ensures var d := Disk(Some(1), None, None, Some([]), None, None, None, None, None);
      var e := Effect(d, RevokeRun(Cert(1, "/CN=a", exp), RevValid, "", now, Stop(6, 0)), true, oids);
      && Ahead(d) && !Ahead(e)
      && e.serial == Some(1) && e.index == Some([NewRow(Cert(1, "/CN=a", exp))])
      && Certify(Loaded(e.index.value, true), 1, reqs).certs == []
  {
    var c := Cert(1, "/CN=a", exp);
    var d := Disk(Some(1), None, None, Some([]), None, None, None, None, None);
    var rows := [NewRow(c)];
    assert Insert(Loaded([], true), NewRow(c)).Some? && [] + rows == rows;
    IndexAfterStop(d, rows, true, Stop(6, 0));
    BelowAppendExact([], NewRow(c), 1, 1);
    CertifyStopsAt(Loaded(rows, true), 1, reqs, 1);
    SerialsAreConsecutive(Loaded(rows, true), 1, reqs);
  }

  // ----- what the certify loop issues -----

  predicate Signs(q: Req) { q.Req? && q.answer.Signed? }

  /** How many of the requests are signed. */
  function SignedOf(reqs: seq<Req>): nat {
    if reqs == [] then 0 else SignedOf(reqs[..|reqs| - 1]) + if Signs(reqs[|reqs| - 1]) then 1 else 0
  }

  /** The row of request `i`: its serial follows those signed before it. */
  function RowAt(serial: int, reqs: seq<Req>, i: nat): Row
    requires i < |reqs| && reqs[i].Req?
  {
    NewRow(Cert(serial + SignedOf(reqs[..i]), reqs[i].subject, reqs[i].notAfter))
  }

  /** The rows of the signed requests, in request order. */
  function SignedRows(serial: int, reqs: seq<Req>): seq<Row> {
    if reqs == [] then [] else
      var n := |reqs| - 1;
      SignedRows(serial, reqs[..n]) + if Signs(reqs[n]) then [RowAt(serial, reqs, n)] else []
  }

  /** Request `i` does not end the loop: it is usable, its signing does not fail, and with unique
      subjects its name is neither in the name index nor that of a request signed before it. */
  ghost predicate Passes(d: Db, serial: int, reqs: seq<Req>, i: nat)
    requires i < |reqs|
  {
    match reqs[i]
    case BadRequest => false
    case BadSignature => true
    case Req(_, _, answer) =>
      && !answer.SigningFailed?
      && (d.unique ==>
            && FindName(d, RowAt(serial, reqs, i).name).None?
            && forall j :: 0 <= j < i && Signs(reqs[j]) ==> RowAt(serial, reqs, j).name != RowAt(serial, reqs, i).name)
  }

  lemma PassesEarlier(d: Db, serial: int, reqs: seq<Req>, i: nat)
    requires i < |reqs| - 1
    ensures Passes(d, serial, reqs[..|reqs| - 1], i) <==> Passes(d, serial, reqs, i)
  {
    var before := reqs[..|reqs| - 1];
    forall j | 0 <= j <= i && reqs[j].Req? ensures RowAt(serial, before, j) == RowAt(serial, reqs, j) {
      assert before[..j] == reqs[..j];
    }
  }

  /** What the loop holds after requests that all pass. */
  ghost predicate Issued(d: Db, serial: int, reqs: seq<Req>, r: Certified) {
    && r.ok && r.serial == serial + SignedOf(reqs) && |r.certs| == SignedOf(reqs)
    && r.db.rows == d.rows + SignedRows(serial, reqs) && r.db.unique == d.unique
  }

  /** The name index grows by the names of the signed requests. */
  ghost predicate NamesIssued(d: Db, serial: int, reqs: seq<Req>, r: Certified) {
    d.unique ==> forall name :: FindName(r.db, name).Some? <==>
      FindName(d, name).Some? || exists j :: 0 <= j < |reqs| && Signs(reqs[j]) && RowAt(serial, reqs, j).name == name
  }

  lemma FindNameAppend(d: Db, r: Row, name: string)
    requires d.unique
    ensures var e := Db(d.rows + [r], d.named + {|d.rows|}, true);
      FindName(e, name).Some? <==> FindName(d, name).Some? || r.name == name
  {
    var e := Db(d.rows + [r], d.named + {|d.rows|}, true);
    if FindName(d, name).Some? {
      var i := FindName(d, name).value;
      assert e.rows[i] == d.rows[i] && i in e.named;
    }
    assert e.rows[|d.rows|] == r && |d.rows| in e.named;
    if FindName(e, name).Some? && r.name != name {
      var i := FindName(e, name).value;
      assert i < |d.rows| && e.rows[i] == d.rows[i];
    }
  }

  lemma OneIssued(d: Db, serial: int, reqs: seq<Req>, p: Certified)
    requires reqs != [] && Issued(d, serial, reqs[..|reqs| - 1], p) && NamesIssued(d, serial, reqs[..|reqs| - 1], p)
    requires FindSerial(p.db.rows, Serial(p.serial)).None?
    ensures var r, n := CertifyOne(p, reqs[|reqs| - 1]), |reqs| - 1;
      if Passes(d, serial, reqs, n) then Issued(d, serial, reqs, r) && NamesIssued(d, serial, reqs, r) else !r.ok
  {
    var n := |reqs| - 1;
    var before, q := reqs[..n], reqs[n];
    forall j | 0 <= j < n && reqs[j].Req? ensures RowAt(serial, before, j) == RowAt(serial, reqs, j) {
      assert before[..j] == reqs[..j];
    }
    if q.Req? {
      var c := Cert(p.serial, q.subject, q.notAfter);
      assert NewRow(c) == RowAt(serial, reqs, n);
      if d.unique { NameAt(d, serial, reqs, p, NewRow(c).name); }
      if Signs(q) { assert p.db.rows + [NewRow(c)] == d.rows + SignedRows(serial, reqs); }
      if d.unique && Passes(d, serial, reqs, n) && Signs(q) { GrownNames(d, serial, reqs, p, NewRow(c)); }
    }
  }

  /** A name is taken after the earlier requests exactly as the last request's passing has it. */
  lemma NameAt(d: Db, serial: int, reqs: seq<Req>, p: Certified, name: string)
    requires reqs != [] && d.unique && NamesIssued(d, serial, reqs[..|reqs| - 1], p)
    ensures FindName(p.db, name).Some? <==>
      FindName(d, name).Some? ||
      exists j :: 0 <= j < |reqs| - 1 && Signs(reqs[j]) && RowAt(serial, reqs, j).name == name
  {
    var before := reqs[..|reqs| - 1];
    forall j | 0 <= j < |before| && reqs[j].Req? ensures RowAt(serial, before, j) == RowAt(serial, reqs, j) {
      assert before[..j] == reqs[..j];
    }
  }

  lemma GrownNames(d: Db, serial: int, reqs: seq<Req>, p: Certified, r: Row)
    requires reqs != [] && d.unique && p.db.unique && NamesIssued(d, serial, reqs[..|reqs| - 1], p)
    requires Signs(reqs[|reqs| - 1]) && r == RowAt(serial, reqs, |reqs| - 1)
    ensures var e := Db(p.db.rows + [r], p.db.named + {|p.db.rows|}, true);
      NamesIssued(d, serial, reqs, Certified(e, p.serial + 1, p.certs + [p.serial], true))
  {
    var e := Db(p.db.rows + [r], p.db.named + {|p.db.rows|}, true);
    forall name: string ensures FindName(e, name).Some? <==>
      FindName(d, name).Some? || exists j :: 0 <= j < |reqs| && Signs(reqs[j]) && RowAt(serial, reqs, j).name == name
    {
      FindNameAppend(p.db, r, name);
      NameAt(d, serial, reqs, p, name);
    }
  }

  /** With the serial ahead of the index, the loop comes to its end exactly when every request
      passes; then every signed request has its row, in order and with the next serial. */
  lemma {:induction false} CertifyExact(d: Db, serial: int, reqs: seq<Req>)
    requires Below(d.rows, serial)
    ensures var r := Certify(d, serial, reqs);
      && (r.ok <==> forall i :: 0 <= i < |reqs| ==> Passes(d, serial, reqs, i))
      && (r.ok ==> Issued(d, serial, reqs, r) && NamesIssued(d, serial, reqs, r))
    decreases |reqs|
  {
    if reqs == [] {
      assert d.rows + [] == d.rows;
    } else {
      var n := |reqs| - 1;
      var p := Certify(d, serial, reqs[..n]);
      CertifyExact(d, serial, reqs[..n]);
      CertifyStaysAhead(d, serial, reqs[..n]);
      forall i | 0 <= i < n ensures Passes(d, serial, reqs[..n], i) <==> Passes(d, serial, reqs, i) {
        PassesEarlier(d, serial, reqs, i);
      }
      if p.ok { OneIssued(d, serial, reqs, p); }
    }
  }

  // ----- what a run leaves on disk -----

  /** The run issues something and the operator confirms it. */
  ghost predicate Commits(d: Disk, reqs: seq<Req>, confirmed: bool, unique: bool, oids: OidTable) {
    && d.index.Some? && Loadable(d.index.value, unique, oids) && d.serial.Some? && confirmed
    && (forall i :: 0 <= i < |reqs| ==> Passes(Loaded(d.index.value, unique), d.serial.value, reqs, i))
    && SignedOf(reqs) > 0
  }

  /** An issuing run that is not stopped: when it commits, the serial file has advanced by the
      certificates issued and the index file has their rows at its end, with the former
      versions beside them; otherwise the disk is as it was. */
  lemma IssueRunWrites(d: Disk, reqs: seq<Req>, confirmed: bool, stop: Stop, unique: bool, oids: OidTable)
    requires Ahead(d) && stop.k >= 9
    ensures var e := Effect(d, IssueRun(reqs, confirmed, stop), unique, oids);
      if Commits(d, reqs, confirmed, unique, oids) then
        && e.serial == Some(d.serial.value + SignedOf(reqs)) && e.serialOld == d.serial
        && e.index == Some(d.index.value + SignedRows(d.serial.value, reqs)) && e.indexOld == d.index
      else e == d
  {
    if d.index.Some? && d.serial.Some? && Loadable(d.index.value, unique, oids) {
      var r := Certify(Loaded(d.index.value, unique), d.serial.value, reqs);
      CommitsExact(d, reqs, confirmed, unique, oids, r);
      if Commits(d, reqs, confirmed, unique, oids) { IssueWritten(d, r.serial, r.db.rows, unique, stop); }
    }
  }

  lemma CommitsExact(d: Disk, reqs: seq<Req>, confirmed: bool, unique: bool, oids: OidTable, r: Certified)
    requires Ahead(d) && d.index.Some? && d.serial.Some? && Loadable(d.index.value, unique, oids)
    requires r == Certify(Loaded(d.index.value, unique), d.serial.value, reqs)
    ensures Commits(d, reqs, confirmed, unique, oids) <==> r.ok && r.certs != [] && confirmed
    ensures r.ok ==>
      && r.serial == d.serial.value + SignedOf(reqs)
      && r.db.rows == d.index.value + SignedRows(d.serial.value, reqs)
  {
    CertifyExact(Loaded(d.index.value, unique), d.serial.value, reqs);
  }

  lemma IssueWritten(d: Disk, n: int, rows: seq<Row>, unique: bool, stop: Stop)
    requires d.serial.Some? && d.index.Some? && stop.k >= 9
    ensures var e := Finish(d, IssueOps(n, rows, unique), stop);
      e.serial == Some(n) && e.serialOld == d.serial && e.index == Some(rows) && e.indexOld == d.index
  {
    IssueChain(d, n, rows, unique, 9);
    assert UndoAfter(IssueOps(n, rows, unique)[8]) == [];
  }

  /** However it is stopped, an issuing run that does not commit leaves the disk as it was. */
  lemma UnconfirmedWritesNothing(d: Disk, reqs: seq<Req>, confirmed: bool, stop: Stop, unique: bool, oids: OidTable)
    requires Ahead(d) && !Commits(d, reqs, confirmed, unique, oids)
    ensures Effect(d, IssueRun(reqs, confirmed, stop), unique, oids) == d
  {
    if d.index.Some? && d.serial.Some? { CertifyExact(Loaded(d.index.value, unique), d.serial.value, reqs); }
  }

  /** A revoking run that is not stopped writes the index exactly when the call succeeds. */
  lemma RevokeRunWrites(d: Disk, c: Cert, t: RevType, arg: string, now: Date, stop: Stop, unique: bool, oids: OidTable)
    requires stop.k >= 6
    ensures var e := Effect(d, RevokeRun(c, t, arg, now, stop), unique, oids);
      if d.index.Some? && Loadable(d.index.value, unique, oids)
         && var db := Loaded(d.index.value, unique); Revokes(db, c, t, arg, oids) || (t.RevValid? && Adds(db, c))
      then
        && e.serial == d.serial && e.indexOld == d.index
        && e.index == Some(Revoke(Loaded(d.index.value, unique), c, t, arg, now, oids).0.rows)
      else e == d
  {
    if d.index.Some? {
      var db := Loaded(d.index.value, unique);
      RevokeSucceeds(db, c, t, arg, now, oids);
      IndexWritten(d, Revoke(db, c, t, arg, now, oids).0.rows, unique, stop);
    }
  }

  lemma IndexWritten(d: Disk, rows: seq<Row>, unique: bool, stop: Stop)
    requires d.index.Some? && stop.k >= 6
    ensures var e := Finish(d, IndexOps(rows, unique), stop);
      e.serial == d.serial && e.index == Some(rows) && e.indexOld == d.index
  {
    IndexChain(d, rows, unique, 6);
    assert UndoAfter(IndexOps(rows, unique)[5]) == [];
  }

  /** An expiring run that is not stopped writes the index exactly when some row expires. */
  lemma ExpireRunWrites(d: Disk, now: Date, stop: Stop, unique: bool, oids: OidTable)
    requires stop.k >= 6
    ensures var e := Effect(d, ExpireRun(now, stop), unique, oids);
      if d.index.Some? && Loadable(d.index.value, unique, oids) && SomethingExpires(d.index.value, now) then
        && e.serial == d.serial && e.indexOld == d.index
        && e.index == Some(ExpireRows(d.index.value, now).0)
      else e == d
  {
    if d.index.Some? && Loadable(d.index.value, unique, oids) {
      SomeExpire(d.index.value, now, oids);
      IndexWritten(d, ExpireRows(d.index.value, now).0, unique, stop);
    }
  }

  lemma SomeExpire(rows: seq<Row>, now: Date, oids: OidTable)
    requires RowsOk(rows, oids)
    ensures ExpireRows(rows, now).1 > 0 <==> SomethingExpires(rows, now)
  {
    assert forall i :: 0 <= i < |rows| ==> RowOk(rows[i], oids);
    ExpireFailsExact(rows, now);
    ExpireCounts(rows, now);
    if i :| 0 <= i < |rows| && Expires(rows[i], now) { assert i in ExpiringAt(rows, now); }
    if ExpiringAt(rows, now) != {} { var i :| i in ExpiringAt(rows, now); }
  }

  // ----- commits whose undoing is carried out -----

  /** The files that the next run reads. */
  ghost predicate Holds(d: Disk, serial: Option<int>, index: Option<seq<Row>>, attr: Option<bool>) {
    d.serial == serial && d.index == index && d.attr == attr
  }

  /** All that is undone after this operation. */
  function Undone(e: Disk, op: Op): Disk {
    match op
    case SerialAway => Exec(e, SerialBack)
    case IndexAway => Exec(e, IndexBack)
    case IndexIn => Exec(Exec(e, IndexOut), IndexBack)
    case AttrAway => Exec(Exec(Exec(e, AttrBack), IndexOut), IndexBack)
    case _ => e
  }

  lemma UndoneIsUndo(e: Disk, op: Op)
    ensures AfterOps(e, UndoAfter(op), |UndoAfter(op)|) == Undone(e, op)
  {
    var ops := UndoAfter(op);
    assert AfterOps(e, ops, 0) == e;
    if |ops| > 0 { assert AfterOps(e, ops, 1) == Exec(e, ops[0]); }
    if |ops| > 1 { assert AfterOps(e, ops, 2) == Exec(Exec(e, ops[0]), ops[1]); }
    if |ops| > 2 { assert AfterOps(e, ops, 3) == Exec(Exec(Exec(e, ops[0]), ops[1]), ops[2]); }
  }

  lemma FinishUndone(d: Disk, ops: seq<Op>, k: nat)
    requires k <= |ops|
    ensures Finish(d, ops, Stop(k, 3)) == if k == 0 then d else Undone(AfterOps(d, ops, k), ops[k - 1])
  {
    if k > 0 {
      UndoneIsUndo(AfterOps(d, ops, k), ops[k - 1]);
      assert |UndoAfter(ops[k - 1])| <= 3;
    }
  }

  /** Putting the attribute file back takes an older one when there was none. */
  predicate NoStaleAttr(d: Disk) { d.attr.Some? || d.attrOld.None? }

  /** The rotation of the index and its attributes, from the operation that moves the index away. */
  lemma IndexRotation(d: Disk, rows: seq<Row>, unique: bool)
    requires d.index.Some? && d.indexNew == Some(rows) && d.attrNew == Some(unique)
    ensures var d1 := Exec(d, IndexAway); var d2 := Exec(d1, IndexIn); var d3 := Exec(d2, AttrAway);
      && Holds(Undone(d1, IndexAway), d.serial, d.index, d.attr)
      && Holds(Undone(d2, IndexIn), d.serial, d.index, d.attr)
      && (Holds(Undone(d3, AttrAway), d.serial, d.index, d.attr) <==> NoStaleAttr(d))
      && Holds(Exec(d3, AttrIn), d.serial, Some(rows), Some(unique))
  {
  }

  /** A commit of the index that fails at some rename and is undone leaves the files as they were,
      unless a missing attribute file is replaced by an older one; one that ends leaves the new ones. */
  lemma IndexCommitExactly(d: Disk, rows: seq<Row>, unique: bool, k: nat)
    requires d.index.Some? && k <= 6
    ensures var e := Finish(d, IndexOps(rows, unique), Stop(k, 3));
      && (k < 6 ==> (Holds(e, d.serial, d.index, d.attr) <==> k < 5 || NoStaleAttr(d)))
      && (k == 6 ==> Holds(e, d.serial, Some(rows), Some(unique)))
  {
    var ops := IndexOps(rows, unique);
    var d2 := d.(indexNew := Some(rows), attrNew := Some(unique));
    IndexRotation(d2, rows, unique);
    FinishUndone(d, ops, k);
    assert AfterOps(d, ops, 1) == d.(indexNew := Some(rows));
    assert AfterOps(d, ops, 2) == d2;
    if k >= 3 { assert AfterOps(d, ops, 3) == Exec(d2, IndexAway); }
    if k >= 4 { assert AfterOps(d, ops, 4) == Exec(Exec(d2, IndexAway), IndexIn); }
    if k >= 5 { assert AfterOps(d, ops, 5) == Exec(Exec(Exec(d2, IndexAway), IndexIn), AttrAway); }
  }

  lemma IssueRotation(d: Disk, n: int, rows: seq<Row>, unique: bool, d5: Disk)
    requires AfterOps(d, IssueOps(n, rows, unique), 5) == d5
    ensures var ops := IssueOps(n, rows, unique);
      && AfterOps(d, ops, 6) == Exec(d5, IndexAway)
      && AfterOps(d, ops, 7) == Exec(Exec(d5, IndexAway), IndexIn)
      && AfterOps(d, ops, 8) == Exec(Exec(Exec(d5, IndexAway), IndexIn), AttrAway)
      && AfterOps(d, ops, 9) == Exec(Exec(Exec(Exec(d5, IndexAway), IndexIn), AttrAway), AttrIn)
  {
    var ops := IssueOps(n, rows, unique);
    assert ops[5] == IndexAway && ops[6] == IndexIn && ops[7] == AttrAway && ops[8] == AttrIn;
    assert AfterOps(d, ops, 6) == Exec(d5, IndexAway);
    assert AfterOps(d, ops, 7) == Exec(AfterOps(d, ops, 6), IndexIn);
    assert AfterOps(d, ops, 8) == Exec(AfterOps(d, ops, 7), AttrAway);
  }

  /** An issuing run that fails at some rename and is undone leaves the index and its attributes as
      they were, and the new serial as soon as the serial file has been replaced. */
  lemma IssueCommitExactly(d: Disk, n: int, rows: seq<Row>, unique: bool, k: nat)
    requires d.serial.Some? && d.index.Some? && k <= 9
    ensures var e := Finish(d, IssueOps(n, rows, unique), Stop(k, 3));
      && (k < 5 ==> Holds(e, d.serial, d.index, d.attr))
      && (5 <= k < 9 ==> (Holds(e, Some(n), d.index, d.attr) <==> k < 8 || NoStaleAttr(d)))
      && (k == 9 ==> Holds(e, Some(n), Some(rows), Some(unique)))
  {
    var ops := IssueOps(n, rows, unique);
    var d3 := d.(serialNew := Some(n), indexNew := Some(rows), attrNew := Some(unique));
    var d5 := d3.(serial := Some(n), serialNew := None, serialOld := d.serial);
    IndexRotation(d5, rows, unique);
    FinishUndone(d, ops, k);
    assert AfterOps(d, ops, 1) == d.(serialNew := Some(n));
    assert AfterOps(d, ops, 2) == d.(serialNew := Some(n), indexNew := Some(rows));
    assert AfterOps(d, ops, 3) == d3;
    assert AfterOps(d, ops, 4) == Exec(d3, SerialAway);
    assert AfterOps(d, ops, 5) == d5;
    if k >= 6 { IssueRotation(d, n, rows, unique, d5); }
  }

  /** A commit without an attribute file, but with an older one beside it, whose last rename fails:
      the older one is in place afterwards. */
  lemma OldAttributesReturn(d: Disk, rows: seq<Row>, unique: bool, was: bool)
    requires d.index.Some? && d.attr.None? && d.attrOld == Some(was)
    ensures var e := Finish(d, IndexOps(rows, unique), Stop(5, 3)); Holds(e, d.serial, d.index, Some(was))
  {
    var ops := IndexOps(rows, unique);
    var d2 := d.(indexNew := Some(rows), attrNew := Some(unique));
    FinishUndone(d, ops, 5);
    assert AfterOps(d, ops, 1) == d.(indexNew := Some(rows));
    assert AfterOps(d, ops, 2) == d2;
    assert AfterOps(d, ops, 3) == Exec(d2, IndexAway);
    assert AfterOps(d, ops, 4) == Exec(Exec(d2, IndexAway), IndexIn);
    assert AfterOps(d, ops, 5) == Exec(Exec(Exec(d2, IndexAway), IndexIn), AttrAway);
  }
}
