/**
 The revocation field of an index row: written when a certificate is revoked,
 read again by the loader, by the CRL generator and by the OCSP responder.
 */
module RevInfo {
  import opened Wrappers
  import opened Calendar
  import opened Asn1Time

  /** An object identifier, and the lookup of its text (`OBJ_txt2obj`). */
  type Oid = string
  type OidTable = string -> Option<Oid>

  datatype RevType = RevValid | RevNone | RevCrlReason | RevHold | RevKeyCompromise | RevCaCompromise

  /** The reason strings; the last three are pseudo reasons that carry an argument. */
  function ReasonName(i: nat): string
    requires i < 11
  {
    if i == 0 then "unspecified"
    else if i == 1 then "keyCompromise"
    else if i == 2 then "CACompromise"
    else if i == 3 then "affiliationChanged"
    else if i == 4 then "superseded"
    else if i == 5 then "cessationOfOperation"
    else if i == 6 then "certificateHold"
    else if i == 7 then "removeFromCRL"
    else if i == 8 then "holdInstruction"
    else if i == 9 then "keyTime"
    else "CAkeyTime"
  }

  /** `OPENSSL_strcasecmp` finds no difference. */
  predicate EqFold(a: string, b: string) {
    |a| == |b| && forall i :: 0 <= i < |a| ==> LowerChar(a[i]) == LowerChar(b[i])
  }

  /** The first reason below `bound` that matches, or `bound`. */
  function FindReason(s: string, from: nat, bound: nat): (i: nat)
    requires from <= bound <= 11
    ensures from <= i <= bound
    ensures i < bound ==> EqFold(s, ReasonName(i))
    ensures forall j :: from <= j < i ==> !EqFold(s, ReasonName(j))
    decreases bound - from
  {
    if from == bound || EqFold(s, ReasonName(from)) then from else FindReason(s, from + 1, bound)
  }

  /** The position of the first `c` in `s` (`strchr`), or the length. */
  function IndexOf(s: string, c: char): (i: nat)
    ensures i <= |s|
    ensures i < |s| ==> s[i] == c
    ensures forall j :: 0 <= j < i ==> s[j] != c
  {
    if s == "" || s[0] == c then 0 else 1 + IndexOf(s[1..], c)
  }

  // ----- writing (make_revocation_str) -----

  /** The reason and the extra argument to store; None when the argument is refused. */
  function ReasonAndOther(t: RevType, arg: string, oids: OidTable): Option<(Option<string>, Option<string>)> {
    match t
    case RevValid | RevNone => Some((None, None))
    case RevCrlReason =>
      var i := FindReason(arg, 0, 8);
      if i == 8 then None else Some((Some(ReasonName(i)), None))
    case RevHold =>
      if oids(arg).None? then None else Some((Some(ReasonName(8)), Some(arg)))
    case RevKeyCompromise =>
      if Parse(Generalized, arg).None? then None else Some((Some(ReasonName(9)), Some(arg)))
    case RevCaCompromise =>
      if Parse(Generalized, arg).None? then None else Some((Some(ReasonName(10)), Some(arg)))
  }

  function Joined(time: string, reason: Option<string>, other: Option<string>): string {
    time + (if reason.Some? then "," + reason.value else "") + (if other.Some? then "," + other.value else "")
  }

  /** The stored text: time, reason and argument separated by commas. */
  function RevocationText(t: RevType, arg: string, now: Date, oids: OidTable): Option<string>
  {
    match ReasonAndOther(t, arg, oids)
    case None => None
    case Some((reason, other)) => Some(Joined(Format(now), reason, other))
  }

  /** `OPENSSL_strlcpy` and `OPENSSL_strlcat` into `size` characters, terminator included. */
  function Strlcpy(src: string, size: nat): string
    requires size > 0
  {
    if |src| < size then src else src[..size - 1]
  }

  function Strlcat(dst: string, src: string, size: nat): string
    requires size > 0
  {
    Strlcpy(dst + src, size)
  }

  /** The allocated length is exact: nothing is cut off and nothing is left over. */
  method MakeRevocationStr(t: RevType, arg: string, now: Date, oids: OidTable) returns (r: Option<string>)
    ensures r == RevocationText(t, arg, now, oids)
  {
    var reason: Option<string>, other: Option<string> := None, None;
    match t {
      case RevValid =>
      case RevNone =>
      case RevCrlReason =>
        var i := 0;
        while i < 8
          invariant 0 <= i <= 8
          invariant FindReason(arg, 0, 8) == FindReason(arg, i, 8)
          invariant reason == None
        {
          if EqFold(arg, ReasonName(i)) {
            reason := Some(ReasonName(i));
            break;
          }
          i := i + 1;
        }
        if reason == None {
          return None;
        }
      case RevHold =>
        if oids(arg) == None {
          return None;
        }
        reason, other := Some(ReasonName(8)), Some(arg);
      case RevKeyCompromise =>
        if Parse(Generalized, arg) == None {
          return None;
        }
        reason, other := Some(ReasonName(9)), Some(arg);
      case RevCaCompromise =>
        if Parse(Generalized, arg) == None {
          return None;
        }
        reason, other := Some(ReasonName(10)), Some(arg);
    }
    var str := WriteExact(Format(now), reason, other);
    r := Some(str);
  }

  /** The buffer is sized first and then filled by bounded copies. */
  method WriteExact(time: string, reason: Option<string>, other: Option<string>) returns (str: string)
    ensures str == Joined(time, reason, other)
  {
    var size := |time| + 1;
    if reason.Some? { size := size + |reason.value| + 1; }
    if other.Some? { size := size + |other.value| + 1; }
    str := Strlcpy(time, size);
    if reason.Some? {
      str := Strlcat(str, ",", size);
      str := Strlcat(str, reason.value, size);
    }
    if other.Some? {
      str := Strlcat(str, ",", size);
      str := Strlcat(str, other.value, size);
    }
  }

  // ----- reading (unpack_revinfo) -----

  datatype Revocation = Revocation(time: Stamp, reason: int, hold: Option<Oid>, invalidity: Option<Stamp>)

  /** A failed read still hands out a time when that part was in order. */
  datatype Unpacked = BadTime | BadReason(time: Stamp) | Unpacked(info: Revocation)

  const NoReason := -1
  const KeyCompromise := 1
  const CaCompromise := 2
  const CertificateHold := 6
  const RemoveFromCrl := 8

  /** The three comma-separated parts; only the first two commas separate. */
  function Parts(s: string): (string, Option<string>, Option<string>) {
    var c := IndexOf(s, ',');
    if c == |s| then (s, None, None) else
      var rest := s[c + 1..];
      var d := IndexOf(rest, ',');
      (s[..c], Some(rest[..d]), if d == |rest| then None else Some(rest[d + 1..]))
  }

  /** The meaning of reason number `i` with its argument; 11 stands for no such reason. */
  function Interpret(time: Stamp, i: nat, arg: Option<string>, oids: OidTable): Unpacked {
    if i == 11 then BadReason(time)
    else if i == 7 then Unpacked(Revocation(time, RemoveFromCrl, None, None))
    else if i == 8 then
      if arg.None? || oids(arg.value).None? then BadReason(time)
      else Unpacked(Revocation(time, CertificateHold, oids(arg.value), None))
    else if i == 9 || i == 10 then
      if arg.None? || Parse(Generalized, arg.value).None? then BadReason(time)
      else
        var reason := if i == 9 then KeyCompromise else CaCompromise;
        Unpacked(Revocation(time, reason, None, Parse(Generalized, arg.value)))
    else Unpacked(Revocation(time, i, None, None))
  }

  function UnpackParts(timeText: string, reason: Option<string>, arg: Option<string>, oids: OidTable): Unpacked {
    match Parse(Utc, timeText)
    case None => BadTime
    case Some(time) =>
      match reason
      case None => Unpacked(Revocation(time, NoReason, None, None))
      case Some(text) => Interpret(time, FindReason(text, 0, 11), arg, oids)
  }

  function Unpack(s: string, oids: OidTable): Unpacked {
    var (timeText, reason, arg) := Parts(s);
    UnpackParts(timeText, reason, arg, oids)
  }

  method UnpackRevinfo(s: string, oids: OidTable) returns (r: Unpacked)
    ensures r == Unpack(s, oids)
  {
    var reason: Option<string>, arg: Option<string>, timeText := None, None, s;
    var p := IndexOf(s, ',');
    if p < |s| {
      timeText := s[..p];
      var rest := s[p + 1..];
      p := IndexOf(rest, ',');
      reason := Some(rest[..p]);
      if p < |rest| { arg := Some(rest[p + 1..]); }
    }
    assert Parts(s) == (timeText, reason, arg);
    r := InterpretParts(timeText, reason, arg, oids);
  }

  method InterpretParts(timeText: string, reason: Option<string>, arg: Option<string>, oids: OidTable)
    returns (r: Unpacked)
    ensures r == UnpackParts(timeText, reason, arg, oids)
  {
    var time := Parse(Utc, timeText);
    if time == None {
      return BadTime;
    }
    if reason == None {
      return Unpacked(Revocation(time.value, NoReason, None, None));
    }
    var code := NoReason;
    var i := 0;
    while i < 11
      invariant 0 <= i <= 11
      invariant code == NoReason
      invariant FindReason(reason.value, 0, 11) == FindReason(reason.value, i, 11)
    {
      if EqFold(reason.value, ReasonName(i)) {
        code := i;
        break;
      }
      i := i + 1;
    }
    if code == NoReason {
      return BadReason(time.value);
    }
    r := InterpretReason(time.value, code, arg, oids);
  }

  method InterpretReason(time: Stamp, number: nat, arg: Option<string>, oids: OidTable) returns (r: Unpacked)
    requires number < 11
    ensures r == Interpret(time, number, arg, oids)
  {
    var code: int := number;
    var hold: Option<Oid>, invalidity: Option<Stamp> := None, None;
    if code == 7 {
      code := RemoveFromCrl;
    } else if code == 8 {
      if arg == None || oids(arg.value) == None {
        return BadReason(time);
      }
      code, hold := CertificateHold, oids(arg.value);
    } else if code == 9 || code == 10 {
      if arg == None || Parse(Generalized, arg.value) == None {
        return BadReason(time);
      }
      invalidity := Parse(Generalized, arg.value);
      code := if code == 9 then KeyCompromise else CaCompromise;
    }
    r := Unpacked(Revocation(time, code, hold, invalidity));
  }

  // ----- CRL entries (make_revoked) -----

  datatype Extension = ReasonCode(code: int) | InvalidityDate(time: Stamp) | HoldInstruction(oid: Oid)

  datatype Entry = Entry(date: Stamp, extensions: seq<Extension>)

  /** 0 is an error, 1 a plain entry, 2 an entry that needs a version 2 CRL. */
  method MakeRevoked(s: string, oids: OidTable) returns (code: int, entry: Option<Entry>)
    ensures entry == EntryOf(s, oids)
    ensures code == 0 <==> entry == None
    ensures code == 2 <==> entry.Some? && entry.value.extensions != []
    ensures code == 0 || code == 1 || code == 2
  {
    var u := UnpackRevinfo(s, oids);
    if !u.Unpacked? {
      return 0, None;
    }
    UnpackedShape(s, oids);
    var e;
    code, e := BuildEntry(u.info);
    entry := Some(e);
  }

  /** Each extension is added only if its data is there, but the result is judged by the reason alone. */
  method BuildEntry(info: Revocation) returns (code: int, entry: Entry)
    requires WellShaped(info)
    ensures entry == Entry(info.time, ExtensionsOf(info))
    ensures code == if entry.extensions != [] then 2 else 1
  {
    var extensions := [];
    if info.reason != NoReason {
      extensions := extensions + [ReasonCode(info.reason)];
    }
    if info.invalidity.Some? {
      extensions := extensions + [InvalidityDate(info.invalidity.value)];
    }
    if info.hold.Some? {
      extensions := extensions + [HoldInstruction(info.hold.value)];
    }
    code := if info.reason != NoReason then 2 else 1;
    entry := Entry(info.time, extensions);
  }

  function ExtensionsOf(info: Revocation): seq<Extension> {
    (if info.reason != NoReason then [ReasonCode(info.reason)] else [])
    + (if info.invalidity.Some? then [InvalidityDate(info.invalidity.value)] else [])
    + (if info.hold.Some? then [HoldInstruction(info.hold.value)] else [])
  }

  function EntryOf(s: string, oids: OidTable): Option<Entry> {
    match Unpack(s, oids)
    case Unpacked(info) => Some(Entry(info.time, ExtensionsOf(info)))
    case _ => None
  }

  /** Hold and invalidity data never come without a reason code, and never together. */
  ghost predicate WellShaped(i: Revocation) {
    && (i.hold.Some? ==> i.reason == CertificateHold && i.invalidity.None?)
    && (i.invalidity.Some? ==> i.reason == KeyCompromise || i.reason == CaCompromise)
    && NoReason <= i.reason <= RemoveFromCrl && i.reason != 7
  }

  lemma UnpackedShape(s: string, oids: OidTable)
    requires Unpack(s, oids).Unpacked?
    ensures WellShaped(Unpack(s, oids).info) && Parse(Utc, Parts(s).0) == Some(Unpack(s, oids).info.time)
  {
    var (timeText, reason, arg) := Parts(s);
    var time := Parse(Utc, timeText).value;
    if reason.Some? { InterpretShape(time, FindReason(reason.value, 0, 11), arg, oids); }
  }

  lemma InterpretShape(time: Stamp, i: nat, arg: Option<string>, oids: OidTable)
    requires i <= 11 && Interpret(time, i, arg, oids).Unpacked?
    ensures WellShaped(Interpret(time, i, arg, oids).info) && Interpret(time, i, arg, oids).info.time == time
  {
  }

  // ----- round trip -----

  /** The CRLReason of section 5.3.1 of RFC 5280 for each revocation type and argument. */
  function RfcReason(t: RevType, arg: string): int {
    match t
    case RevValid | RevNone => -1
    case RevHold => 6
    case RevKeyCompromise => 1
    case RevCaCompromise => 2
    case RevCrlReason =>
      if EqFold(arg, "unspecified") then 0
      else if EqFold(arg, "keyCompromise") then 1
      else if EqFold(arg, "CACompromise") then 2
      else if EqFold(arg, "affiliationChanged") then 3
      else if EqFold(arg, "superseded") then 4
      else if EqFold(arg, "cessationOfOperation") then 5
      else if EqFold(arg, "certificateHold") then 6
      else 8
  }

  /** What a reader must find: the time, the reason and the argument as given. */
  function Meaning(t: RevType, arg: string, now: Date, oids: OidTable): Revocation {
    Revocation(Stamp(now, 0), RfcReason(t, arg),
               if t.RevHold? then oids(arg) else None,
               if t.RevKeyCompromise? || t.RevCaCompromise? then Parse(Generalized, arg) else None)
  }

  predicate NoComma(s: string) {
    forall i :: 0 <= i < |s| ==> s[i] != ','
  }

  lemma {:induction false} IndexOfComma(a: string, b: string)
    requires NoComma(a)
    ensures IndexOf(a, ',') == |a|
    ensures IndexOf(a + "," + b, ',') == |a|
  {
    if a != "" {
      assert (a + "," + b)[1..] == a[1..] + "," + b;
      IndexOfComma(a[1..], b);
    }
  }

  /** The parts read are the parts written, whatever the last one contains. */
  lemma PartsOfJoined(time: string, reason: Option<string>, other: Option<string>)
    requires NoComma(time) && (reason.Some? ==> NoComma(reason.value)) && (other.Some? ==> reason.Some?)
    ensures Parts(Joined(time, reason, other)) == (time, reason, other)
  {
    var s := Joined(time, reason, other);
    if reason.None? {
      IndexOfComma(time, "");
      assert s == time;
    } else {
      var rest := reason.value + (if other.Some? then "," + other.value else "");
      assert s == time + "," + rest;
      IndexOfComma(time, rest);
      assert s[|time| + 1..] == rest && s[..|time|] == time;
      IndexOfComma(reason.value, if other.Some? then other.value else "");
      if other.Some? {
        assert rest == reason.value + "," + other.value;
        assert rest[..|reason.value|] == reason.value && rest[|reason.value| + 1..] == other.value;
      } else {
        assert rest == reason.value;
      }
    }
  }

  /** No two reasons differ only in letter case, so each one is found at its own position. */
  lemma ReasonFound(i: nat)
    requires i < 11
    ensures FindReason(ReasonName(i), 0, 11) == i
  {
    var r := ReasonName(i);
    var found := FindReason(r, 0, 11);
    assert found <= i by { assert EqFold(r, r); }
    if found < i { ReasonsDiffer(found, i); }
  }

  predicate Letters(s: string) {
    forall i :: 0 <= i < |s| ==> 'a' <= s[i] <= 'z' || 'A' <= s[i] <= 'Z'
  }

  lemma ReasonIsLetters(i: nat)
    requires i < 11
    ensures Letters(ReasonName(i))
  {
    if i < 6 { FirstReasonsAreLetters(); } else { LastReasonsAreLetters(); }
  }

  lemma FirstReasonsAreLetters()
    ensures Letters("unspecified") && Letters("keyCompromise") && Letters("CACompromise")
    ensures Letters("affiliationChanged") && Letters("superseded") && Letters("cessationOfOperation")
  {
  }

  lemma LastReasonsAreLetters()
    ensures Letters("certificateHold") && Letters("removeFromCRL")
    ensures Letters("holdInstruction") && Letters("keyTime") && Letters("CAkeyTime")
  {
  }

  /** What is stored before the argument: a plain time and letters. */
  lemma StoredPartsArePlain(t: RevType, arg: string, now: Date, oids: OidTable)
    requires ReasonAndOther(t, arg, oids).Some?
    ensures var (reason, other) := ReasonAndOther(t, arg, oids).value;
      && TimeText(Format(now))
      && (reason.Some? ==> Letters(reason.value))
      && (other.Some? ==> reason.Some? && other.value == arg)
  {
    var k := if UtcYear(now.year) then Utc else Generalized;
    PrintedTimeReadsBack(k, now);
    ParsedTimeIsPlain(k, Format(now));
    if t.RevCrlReason? { ReasonIsLetters(FindReason(arg, 0, 8)); }
    ReasonIsLetters(8); ReasonIsLetters(9); ReasonIsLetters(10);
  }

  lemma ReasonsDiffer(i: nat, j: nat)
    requires i < j < 11
    ensures !EqFold(ReasonName(j), ReasonName(i))
  {
    assert LowerChar(ReasonName(1)[0]) != LowerChar(ReasonName(7)[0]);
    assert LowerChar(ReasonName(6)[0]) != LowerChar(ReasonName(8)[0]);
  }

  lemma RfcReasonOfFound(arg: string)
    ensures var i := FindReason(arg, 0, 8); i < 8 ==> RfcReason(RevCrlReason, arg) == if i == 7 then 8 else i
  {
    var i := FindReason(arg, 0, 8);
    if i < 8 {
      assert forall j :: 0 <= j < i ==> !EqFold(arg, ReasonName(j));
      assert i > 0 ==> !EqFold(arg, ReasonName(0));
      assert i > 1 ==> !EqFold(arg, ReasonName(1));
      assert i > 2 ==> !EqFold(arg, ReasonName(2));
      assert i > 3 ==> !EqFold(arg, ReasonName(3));
      assert i > 4 ==> !EqFold(arg, ReasonName(4));
      assert i > 5 ==> !EqFold(arg, ReasonName(5));
      assert i > 6 ==> !EqFold(arg, ReasonName(6));
    }
  }

  /** Reading back the stored text of any accepted revocation gives its time, its
      RFC 5280 reason code and its argument, commas included, exactly when the
      revocation happens in the years 1950 to 2049; later texts are refused. */
  lemma RevocationRoundTrip(t: RevType, arg: string, now: Date, oids: OidTable)
    requires RevocationText(t, arg, now, oids).Some?
    ensures Unpack(RevocationText(t, arg, now, oids).value, oids)
         == if UtcYear(now.year) then Unpacked(Meaning(t, arg, now, oids)) else BadTime
  {
    var (reason, other) := ReasonAndOther(t, arg, oids).value;
    StoredPartsArePlain(t, arg, now, oids);
    PartsOfJoined(Format(now), reason, other);
    StoredPartsReadBack(t, arg, now, oids, reason, other);
  }

  lemma StoredPartsReadBack(t: RevType, arg: string, now: Date, oids: OidTable, reason: Option<string>,
                            other: Option<string>)
    requires ReasonAndOther(t, arg, oids) == Some((reason, other))
    ensures UnpackParts(Format(now), reason, other, oids)
         == if UtcYear(now.year) then Unpacked(Meaning(t, arg, now, oids)) else BadTime
  {
    UtcReadsPrintedTime(now);
    if reason.Some? { ReasonReadsBack(t, arg, now, oids); }
  }

  lemma ReasonReadsBack(t: RevType, arg: string, now: Date, oids: OidTable)
    requires ReasonAndOther(t, arg, oids).Some? && ReasonAndOther(t, arg, oids).value.0.Some?
    ensures var (reason, other) := ReasonAndOther(t, arg, oids).value;
      Interpret(Stamp(now, 0), FindReason(reason.value, 0, 11), other, oids) == Unpacked(Meaning(t, arg, now, oids))
  {
    match t
    case RevCrlReason => ReasonFound(FindReason(arg, 0, 8)); RfcReasonOfFound(arg);
    case RevHold => ReasonFound(8);
    case RevKeyCompromise => ReasonFound(9);
    case RevCaCompromise => ReasonFound(10);
  }

  // ----- all texts that are read -----

  /** Reasons are compared without regard to case. */
  lemma EqFoldExact(a: string, b: string)
    ensures EqFold(a, b) <==> |a| == |b| && forall i :: 0 <= i < |a| ==> SameLetter(a[i], b[i])
  {
    if |a| == |b| {
      forall i | 0 <= i < |a| ensures LowerChar(a[i]) == LowerChar(b[i]) <==> SameLetter(a[i], b[i]) {
        LowerCharExact(a[i], b[i]);
      }
    }
  }

  /** Up to three parts: the time, the reason and, with any further commas, the argument. */
  ghost predicate Splits(s: string, time: string, reason: Option<string>, arg: Option<string>) {
    && s == Joined(time, reason, arg) && NoComma(time)
    && (reason.Some? ==> NoComma(reason.value)) && (arg.Some? ==> reason.Some?)
  }

  lemma CommaSplits(s: string, c: nat)
    requires c < |s| && s[c] == ','
    ensures s == s[..c] + "," + s[c + 1..]
  {
  }

  /** The parts read are the only parts there are. */
  lemma PartsExact(s: string)
    ensures Splits(s, Parts(s).0, Parts(s).1, Parts(s).2)
  {
    var c := IndexOf(s, ',');
    if c < |s| {
      CommaSplits(s, c);
      var rest := s[c + 1..];
      var d := IndexOf(rest, ',');
      if d < |rest| { CommaSplits(rest, d); }
      SplitsTwice(s, s[..c], rest, d);
    }
  }

  lemma SplitsTwice(s: string, time: string, rest: string, d: nat)
    requires d <= |rest| && s == time + "," + rest && NoComma(time) && NoComma(rest[..d])
    requires d < |rest| ==> rest == rest[..d] + "," + rest[d + 1..]
    ensures Splits(s, time, Some(rest[..d]), if d == |rest| then None else Some(rest[d + 1..]))
  {
  }

  predicate Plain(info: Revocation, code: int) {
    info.reason == code && info.hold.None? && info.invalidity.None?
  }

  /** What a reason with its argument says, by the names and codes of the reasons. */
  predicate Says(r: string, arg: Option<string>, info: Revocation, oids: OidTable) {
    if EqFold(r, "unspecified") then Plain(info, 0)
    else if EqFold(r, "keyCompromise") then Plain(info, 1)
    else if EqFold(r, "CACompromise") then Plain(info, 2)
    else if EqFold(r, "affiliationChanged") then Plain(info, 3)
    else if EqFold(r, "superseded") then Plain(info, 4)
    else if EqFold(r, "cessationOfOperation") then Plain(info, 5)
    else if EqFold(r, "certificateHold") then Plain(info, 6)
    else if EqFold(r, "removeFromCRL") then Plain(info, 8)
    else if EqFold(r, "holdInstruction") then
      arg.Some? && oids(arg.value).Some? && info.reason == 6 && info.hold == oids(arg.value) && info.invalidity.None?
    else if EqFold(r, "keyTime") || EqFold(r, "CAkeyTime") then
      && arg.Some? && Parse(Generalized, arg.value).Some? && info.invalidity == Parse(Generalized, arg.value)
      && info.reason == (if EqFold(r, "keyTime") then 1 else 2) && info.hold.None?
    else false
  }

  lemma FindReasonIs(r: string, i: nat)
    requires i <= 11 && (i < 11 ==> EqFold(r, ReasonName(i))) && forall j :: 0 <= j < i ==> !EqFold(r, ReasonName(j))
    ensures FindReason(r, 0, 11) == i
  {
  }

  /** The number of a reason, by the names in order. */
  lemma ReasonNumber(r: string)
    ensures FindReason(r, 0, 11) ==
      if EqFold(r, "unspecified") then 0 else if EqFold(r, "keyCompromise") then 1
      else if EqFold(r, "CACompromise") then 2 else if EqFold(r, "affiliationChanged") then 3
      else if EqFold(r, "superseded") then 4 else if EqFold(r, "cessationOfOperation") then 5
      else if EqFold(r, "certificateHold") then 6 else if EqFold(r, "removeFromCRL") then 7
      else if EqFold(r, "holdInstruction") then 8 else if EqFold(r, "keyTime") then 9
      else if EqFold(r, "CAkeyTime") then 10 else 11
  {
    var i := if EqFold(r, ReasonName(0)) then 0 else if EqFold(r, ReasonName(1)) then 1
      else if EqFold(r, ReasonName(2)) then 2 else if EqFold(r, ReasonName(3)) then 3
      else if EqFold(r, ReasonName(4)) then 4 else if EqFold(r, ReasonName(5)) then 5
      else if EqFold(r, ReasonName(6)) then 6 else if EqFold(r, ReasonName(7)) then 7
      else if EqFold(r, ReasonName(8)) then 8 else if EqFold(r, ReasonName(9)) then 9
      else if EqFold(r, ReasonName(10)) then 10 else 11;
    FindReasonIs(r, i);
  }

  lemma InterpretExact(time: Stamp, r: string, arg: Option<string>, oids: OidTable, info: Revocation)
    ensures Interpret(time, FindReason(r, 0, 11), arg, oids) == Unpacked(info) <==>
      time == info.time && Says(r, arg, info, oids)
  {
    ReasonNumber(r);
  }

  /** A revocation text is read exactly as its parts say: a UTCTime, and a reason that is absent or
      one of the eleven, with the argument that it needs. */
  lemma UnpackExact(s: string, time: string, reason: Option<string>, arg: Option<string>, oids: OidTable,
                    info: Revocation)
    requires Splits(s, time, reason, arg)
    ensures Unpack(s, oids) == Unpacked(info) <==>
      (Parse(Utc, time) == Some(info.time) &&
       if reason.None? then Plain(info, -1) else Says(reason.value, arg, info, oids))
  {
    PartsOfJoined(time, reason, arg);
    if Parse(Utc, time).Some? && reason.Some? {
      InterpretExact(Parse(Utc, time).value, reason.value, arg, oids, info);
    }
  }
}
